/** The log against the live state: replaying what a run logged gives back what the run built. */
module Recovery {
  import opened Prelude
  import opened Types
  import opened Index
  import opened Storage
  import opened Catalog
  import opened WalEntries
  import opened Maintenance
  import opened Where
  import opened Engine

  /** Same databases, tables, rows, ids and id counters; `sequences` and index data are not recovered by the log. */
  ghost predicate SameImage(i: Image, e: Engine) {
    && i.defs.databases == e.defs.databases
    && i.store.tables == e.store.tables
    && i.store.nextIds == e.store.nextIds
  }

  // ---- What a selection leaves ---------------------------------------------------------------

  ghost predicate NoneSelected(t: Table, selection: Option<Expr>, columns: seq<Column>, platform: Platform) {
    forall id :: id in t ==> !Selected(selection, columns, t[id].values, platform)
  }

  lemma NoneChosen(t: Table, rows: seq<Row>, selection: Option<Expr>, columns: seq<Column>, platform: Platform)
    requires Enumerates(rows, t) && Filter(rows, Chooses(selection, columns, platform)) == []
    ensures NoneSelected(t, selection, columns, platform)
  {
    var keep := Chooses(selection, columns, platform);
    FilterMembers(rows, keep);
    forall id | id in t ensures !Selected(selection, columns, t[id].values, platform) {
      assert t[id] in rows && t[id] !in Filter(rows, keep);
    }
  }

  lemma NothingToDo(t: Table, selection: Option<Expr>, columns: seq<Column>, targets: seq<Target>, platform: Platform)
    requires NoneSelected(t, selection, columns, platform)
    ensures Remaining(t, selection, columns, platform) == t
    ensures Updated(t, selection, columns, targets, platform) == t
  {
  }

  lemma RemainingOfNone(t: Table, selection: Option<Expr>, columns: seq<Column>, targets: seq<Target>,
      platform: Platform, next: nat)
    requires WfTable(t, next) && ChosenRows(t, selection, columns, platform) == []
    ensures Remaining(t, selection, columns, platform) == t
    ensures Updated(t, selection, columns, targets, platform) == t
  {
    ValuesOfWf(t, next);
    NoneChosen(t, Values(t), selection, columns, platform);
    NothingToDo(t, selection, columns, targets, platform);
  }

  // ---- One statement -----------------------------------------------------------------------------

  lemma ReinsertKeepsCounter(t: Table, rows: seq<Row>, counter: nat)
    requires WfTable(t, counter) && Enumerates(rows, t)
    ensures PlaceAll(map[], counter, rows).table == t && PlaceAll(map[], counter, rows).next == counter
    ensures rows == [] <==> t == map[]
  {
    ReinsertRestores(t, rows, counter);
    if rows != [] {
      assert rows[0] in rows;
    }
  }

  /** A snapshot of the live table turns an image that differed from it only in that table into the same image. */
  lemma SnapshotRecovers(s: Store, after: Store, table: Str, rows: seq<Row>)
    requires WfStore(s) && WfStore(after) && Lower(table) in s.tables
    requires after.nextIds == s.nextIds
    requires after.tables == s.tables[Lower(table) := TableOf(after, table)]
    requires Enumerates(rows, TableOf(after, table))
    ensures var r := Restored(s, table, rows);
            r.tables == after.tables && r.nextIds == after.nextIds
  {
    var t, counter := TableOf(after, table), NextOf(after, table);
    var emptied := Emptied(s, table);
    assert NextOf(emptied, table) == counter && TableOf(emptied, table) == map[];
    ReinsertKeepsCounter(t, rows, counter);
    if rows != [] {
      assert s.tables[Lower(table) := map[]][Lower(table) := t] == after.tables;
    }
  }

  /** Either nothing was logged and nothing recoverable changed, or the one entry logged has the statement's effect. */
  ghost predicate Simulates(i: Image, e: Engine, after: Engine) {
    || (after.log == e.log && SameImage(i, after))
    || (|after.log| == |e.log| + 1 && after.log[..|e.log|] == e.log && SameImage(Apply(i, after.log[|e.log|]), after))
  }

  lemma LoggedSimulates(i: Image, e: Engine, after: Engine, entry: WalEntry)
    requires after.log == e.log + [entry] && SameImage(Apply(i, entry), after)
    ensures Simulates(i, e, after)
  {
    assert after.log[..|e.log|] == e.log;
  }

  lemma InsertSimulates(i: Image, e: Engine, db: Str, table: Str, names: seq<Str>, source: Source, now: u64)
    requires SameImage(i, e) && WfStore(e.store)
    ensures var after := ExecInsert(e, db, table, names, source, now).engine;
            Simulates(i, e, after) && WfStore(after.store)
  {
    var o := ExecInsert(e, db, table, names, source, now);
    if o.result.Ok? {
      var def := GetTable(e.defs, db, table).value;
      var f := FillRows(e.defs, table, def.columns, MapRows(def.columns, names, source.rows).value, now);
      InsertedKeepsWf(e.store, table, f.rows);
      LoggedSimulates(i, e, o.engine, InsertRows(table, f.rows));
    }
  }

  /** The rows of one table change, no id and no counter does, and the table's rows are logged. */
  lemma SnapshotSimulates(i: Image, e: Engine, table: Str, s: Store, t: Table, rows: seq<Row>)
    requires SameImage(i, e) && WfStore(e.store) && Lower(table) in e.store.tables
    requires s.nextIds == e.store.nextIds && s.tables == e.store.tables[Lower(table) := t]
    requires WfTable(t, e.store.nextIds[Lower(table)]) && Enumerates(rows, t)
    ensures Simulates(i, e, Logged(e.(store := s), TableSnapshot(table, rows))) && WfStore(s)
  {
    SnapshotRecovers(i.store, s, table, rows);
    LoggedSimulates(i, e, Logged(e.(store := s), TableSnapshot(table, rows)), TableSnapshot(table, rows));
  }

  /** The common end of DELETE and UPDATE. */
  lemma RowChangeSimulates(i: Image, e: Engine, table: Str, s: Store, t: Table, changed: nat)
    requires SameImage(i, e) && WfStore(e.store) && Lower(table) in e.store.tables
    requires s.nextIds == e.store.nextIds && s.tables == e.store.tables[Lower(table) := t]
    requires WfTable(t, e.store.nextIds[Lower(table)])
    requires changed == 0 ==> t == TableOf(e.store, table)
    ensures Simulates(i, e, WithSnapshot(e.(store := s), table, changed)) && WfStore(s)
  {
    if changed == 0 {
      assert s.tables == e.store.tables;
    } else {
      ValuesOfWf(t, e.store.nextIds[Lower(table)]);
      SnapshotSimulates(i, e, table, s, t, Values(t));
      assert TableOf(s, table) == t;
    }
  }

  lemma DeleteSimulates(i: Image, e: Engine, db: Str, table: Str, selection: Option<Expr>, platform: Platform)
    requires SameImage(i, e) && WfStore(e.store)
    ensures var after := ExecDelete(e, db, table, selection, platform).engine;
            Simulates(i, e, after) && WfStore(after.store)
  {
    if ExecDelete(e, db, table, selection, platform).result.Ok? {
      var columns, t := GetTable(e.defs, db, table).value.columns, TableOf(e.store, table);
      var n := |ChosenRows(t, selection, columns, platform)|;
      var s := DeleteRows(e.store, table, selection, TableIndexes(e.defs, db, table), columns, platform);
      if n == 0 {
        RemainingOfNone(t, selection, columns, [], platform, e.store.nextIds[Lower(table)]);
      }
      RowChangeSimulates(i, e, table, s, Remaining(t, selection, columns, platform), n);
    }
  }

  lemma UpdatedKeepsWf(t: Table, selection: Option<Expr>, columns: seq<Column>, targets: seq<Target>,
      platform: Platform, next: nat)
    requires WfTable(t, next)
    ensures WfTable(Updated(t, selection, columns, targets, platform), next)
  {
  }

  lemma UpdateSimulates(i: Image, e: Engine, db: Str, table: Str, assignments: seq<Assignment>,
      selection: Option<Expr>, platform: Platform)
    requires SameImage(i, e) && WfStore(e.store)
    ensures var after := ExecUpdate(e, db, table, assignments, selection, platform).engine;
            Simulates(i, e, after) && WfStore(after.store)
  {
    if ExecUpdate(e, db, table, assignments, selection, platform).result.Ok? {
      var columns := GetTable(e.defs, db, table).value.columns;
      var targets, t := Targets(columns, assignments).value, TableOf(e.store, table);
      var n := |ChosenRows(t, selection, columns, platform)|;
      var s := UpdateRows(e.store, table, selection, targets, TableIndexes(e.defs, db, table), columns, platform);
      var next := e.store.nextIds[Lower(table)];
      UpdatedKeepsWf(t, selection, columns, targets, platform, next);
      if n == 0 {
        RemainingOfNone(t, selection, columns, targets, platform, next);
      }
      RowChangeSimulates(i, e, table, s, Updated(t, selection, columns, targets, platform), n);
    }
  }

  lemma CreateTableSimulates(i: Image, e: Engine, db: Str, name: Str, columns: seq<Column>, ifNotExists: bool)
    requires SameImage(i, e) && WfStore(e.store) && Lower(db) == SRRDB
    ensures var after := ExecCreateTable(e, db, name, columns, ifNotExists).engine;
            Simulates(i, e, after) && WfStore(after.store)
  {
    var after := ExecCreateTable(e, db, name, columns, ifNotExists).engine;
    assert Lower(SRRDB) == SRRDB;
    if after.log != e.log {
      LoggedSimulates(i, e, after, CreateTable(name, columns));
    }
  }

  lemma DropTableSimulates(i: Image, e: Engine, db: Str, name: Str, ifExists: bool)
    requires SameImage(i, e) && WfStore(e.store) && Lower(db) == SRRDB
    ensures var after := ExecDropTable(e, db, name, ifExists).engine;
            Simulates(i, e, after) && WfStore(after.store)
  {
    var after := ExecDropTable(e, db, name, ifExists).engine;
    assert Lower(SRRDB) == SRRDB;
    LowerIdempotent(name);
    ClearedKeepsWf(e.store, Lower(name));
    if after.log != e.log {
      LoggedSimulates(i, e, after, DropTable(Lower(name)));
    }
  }

  lemma WithIndexAgrees(a: Definitions, b: Definitions, db: Str, def: IndexDef)
    requires a.databases == b.databases
    ensures WithIndex(a, db, def).Ok? == WithIndex(b, db, def).Ok?
    ensures WithIndex(a, db, def).Ok? ==> WithIndex(a, db, def).value.databases == WithIndex(b, db, def).value.databases
  {
  }

  lemma CreateIndexSimulates(i: Image, e: Engine, db: Str, table: Str, given: Option<Str>, kind: IndexType,
      columns: seq<Str>, unique: bool)
    requires SameImage(i, e) && WfStore(e.store)
    ensures var after := ExecCreateIndex(e, db, table, given, kind, columns, unique).engine;
            Simulates(i, e, after) && WfStore(after.store)
  {
    var after := ExecCreateIndex(e, db, table, given, kind, columns, unique).engine;
    var def := IndexDef(IndexName(table, given, columns), kind, table, columns, unique);
    WithIndexAgrees(i.defs, e.defs, db, def);
    if after.log != e.log {
      LoggedSimulates(i, e, after, CreateIndex(db, def));
    }
  }

  lemma DropIndexSimulates(i: Image, e: Engine, db: Str, name: Str, ifExists: bool, order: seq<Str>)
    requires SameImage(i, e) && WfStore(e.store)
    ensures var after := ExecDropIndex(e, db, name, ifExists, order).engine;
            Simulates(i, e, after) && WfStore(after.store)
  {
    var after := ExecDropIndex(e, db, name, ifExists, order).engine;
    if after.log != e.log {
      var table := FindIndexTable(e.defs, db, order, name).value;
      assert WithoutIndex(i.defs, db, name, table).Ok? == WithoutIndex(e.defs, db, name, table).Ok?;
      LoggedSimulates(i, e, after, DropIndex(db, name, table));
    }
  }

  lemma StatementSimulates(i: Image, e: Engine, db: Str, s: Statement, platform: Platform)
    requires SameImage(i, e) && WfStore(e.store) && Lower(db) == SRRDB
    ensures var after := Exec(e, db, s, platform).engine;
            Simulates(i, e, after) && WfStore(after.store)
  {
    match s {
      case InsertStmt(table, names, source, now) => InsertSimulates(i, e, db, table, names, source, now);
      case DeleteStmt(table, selection) => DeleteSimulates(i, e, db, table, selection, platform);
      case UpdateStmt(table, assignments, selection) => UpdateSimulates(i, e, db, table, assignments, selection, platform);
      case CreateTableStmt(name, columns, ifNotExists) => CreateTableSimulates(i, e, db, name, columns, ifNotExists);
      case DropTableStmt(name, ifExists) => DropTableSimulates(i, e, db, name, ifExists);
      case CreateIndexStmt(table, given, kind, columns, unique) => CreateIndexSimulates(i, e, db, table, given, kind, columns, unique);
      case DropIndexStmt(name, ifExists, order) => DropIndexSimulates(i, e, db, name, ifExists, order);
    }
  }

  // ---- Whole runs -----------------------------------------------------------------------------------

  lemma SimulatedReplay(e: Engine, after: Engine)
    requires Simulates(ApplyAll(FreshImage, e.log), e, after)
    ensures SameImage(ApplyAll(FreshImage, after.log), after)
  {
    if after.log != e.log {
      assert after.log == e.log + [after.log[|e.log|]];
      ApplyAllAppend(FreshImage, e.log, after.log[|e.log|]);
    }
  }

  /**
    * Replaying a run's log from a fresh state gives the run's databases, rows, ids and counters; every row has its own
    * id.
    */
  lemma {:induction false} ReplayRecoversRun(db: Str, statements: seq<Statement>, platform: Platform)
    requires Lower(db) == SRRDB && NoPanic(db, statements, platform)
    ensures var e := Run(db, statements, platform);
            SameImage(ApplyAll(FreshImage, e.log), e) && WfStore(e.store)
  {
    if statements != [] {
      var before := statements[..|statements| - 1];
      PrefixNoPanic(db, statements, platform, |statements| - 1);
      ReplayRecoversRun(db, before, platform);
      var e := Run(db, before, platform);
      var i := ApplyAll(FreshImage, e.log);
      StatementSimulates(i, e, db, statements[|statements| - 1], platform);
      SimulatedReplay(e, Run(db, statements, platform));
    }
  }

  lemma PrefixNoPanic(db: Str, statements: seq<Statement>, platform: Platform, n: nat)
    requires NoPanic(db, statements, platform) && n <= |statements|
    ensures NoPanic(db, statements[..n], platform)
  {
    forall k | 0 <= k < n ensures !DiesOnShortRow(Run(db, statements[..n][..k], platform), db, statements[..n][k]) {
      assert statements[..n][..k] == statements[..k];
    }
  }

  /** After its first `j` statements the run had logged exactly `log`, and replaying `log` gives that state. */
  ghost predicate StateAt(db: Str, statements: seq<Statement>, platform: Platform, j: nat, log: seq<WalEntry>) {
    && j <= |statements|
    && Run(db, statements[..j], platform).log == log
    && SameImage(ApplyAll(FreshImage, log), Run(db, statements[..j], platform))
  }

  lemma StateAtEnd(db: Str, statements: seq<Statement>, platform: Platform)
    requires Lower(db) == SRRDB && NoPanic(db, statements, platform)
    ensures StateAt(db, statements, platform, |statements|, Run(db, statements, platform).log)
  {
    ReplayRecoversRun(db, statements, platform);
    assert statements[..|statements|] == statements;
  }

  lemma RunLogGrows(db: Str, statements: seq<Statement>, platform: Platform)
    requires Lower(db) == SRRDB && NoPanic(db, statements, platform) && statements != []
    ensures var old', new' := Run(db, statements[..|statements| - 1], platform).log, Run(db, statements, platform).log;
            |old'| <= |new'| <= |old'| + 1 && new'[..|old'|] == old'
  {
    var before := statements[..|statements| - 1];
    PrefixNoPanic(db, statements, platform, |statements| - 1);
    ReplayRecoversRun(db, before, platform);
    var e := Run(db, before, platform);
    StatementSimulates(ApplyAll(FreshImage, e.log), e, db, statements[|statements| - 1], platform);
  }

  /** Every prefix of the log, replayed, is the state the run had after some prefix of its statements. */
  lemma {:induction false} LogPrefixIsRunPrefix(db: Str, statements: seq<Statement>, platform: Platform,
      k: nat) returns (j: nat)
    requires Lower(db) == SRRDB && NoPanic(db, statements, platform)
    requires k <= |Run(db, statements, platform).log|
    ensures StateAt(db, statements, platform, j, Run(db, statements, platform).log[..k])
  {
    var log := Run(db, statements, platform).log;
    if k == |log| {
      StateAtEnd(db, statements, platform);
      assert log[..k] == log;
      j := |statements|;
    } else {
      var before := statements[..|statements| - 1];
      PrefixNoPanic(db, statements, platform, |statements| - 1);
      RunLogGrows(db, statements, platform);
      var shorter := Run(db, before, platform).log;
      assert shorter[..k] == log[..k];
      j := LogPrefixIsRunPrefix(db, before, platform, k);
      assert before[..j] == statements[..j];
    }
  }
}
