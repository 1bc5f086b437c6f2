/** What each statement of `src/engine/executor.rs` does to the definitions, the storage and the log, as functions. */
module Engine {
  import opened Prelude
  import opened Types
  import opened Index
  import opened Storage
  import opened Catalog
  import opened WalEntries
  import opened Maintenance
  import opened Where
  import opened Timestamp

  datatype Engine = Engine(defs: Definitions, store: Store, log: seq<WalEntry>)

  const FreshEngine := Engine(FreshDefinitions, EmptyStore, [])

  datatype Source = Rows(rows: seq<seq<Value>>) | NoSource | OtherSource

  datatype Assignment = Set(column: Str, v: Value) | SetTuple

  datatype Statement =
    | CreateTableStmt(name: Str, columns: seq<Column>, ifNotExists: bool)
    | DropTableStmt(name: Str, ifExists: bool)
      // `now` is the clock reading that CURRENT_TIMESTAMP defaults use
    | InsertStmt(table: Str, names: seq<Str>, source: Source, now: u64)
    | DeleteStmt(table: Str, selection: Option<Expr>)
    | UpdateStmt(table: Str, assignments: seq<Assignment>, selection: Option<Expr>)
    | CreateIndexStmt(table: Str, indexName: Option<Str>, indexType: IndexType, indexColumns: seq<Str>, unique: bool)
      // `order` is the order in which the tables' index lists are met
    | DropIndexStmt(name: Str, ifExists: bool, order: seq<Str>)

  datatype Reply = Done | Affected(rows: nat, lastInsertId: nat)

  datatype Outcome = Outcome(engine: Engine, result: Result<Reply, Error>)

  function Logged(e: Engine, entry: WalEntry): Engine {
    e.(log := e.log + [entry])
  }

  // ---- CREATE TABLE, DROP TABLE ------------------------------------------------------------

  function ExecCreateTable(e: Engine, db: Str, name: Str, columns: seq<Column>, ifNotExists: bool): Outcome {
    if ifNotExists && GetTable(e.defs, db, name).Ok? then Outcome(e, Ok(Done))
    else
      var logged := Logged(e, CreateTable(name, columns));
      match WithTable(e.defs, db, name, columns)
      case Ok(c) => Outcome(logged.(defs := c), Ok(Done))
      case Err(x) => Outcome(logged, Err(x))
  }

  function ExecDropTable(e: Engine, db: Str, name: Str, ifExists: bool): Outcome {
    var tn := Lower(name);
    if ifExists && GetTable(e.defs, db, name).Err? then Outcome(e, Ok(Done))
    else
      var logged := Logged(e, DropTable(tn));
      match WithoutTable(e.defs, db, tn)
      case Ok(c) => Outcome(logged.(defs := c, store := Cleared(e.store, tn)), Ok(Done))
      case Err(x) => Outcome(logged, Err(x))
  }

  // ---- INSERT ----------------------------------------------------------------------------------

  /** The first `k` named columns of a VALUES row put into place; `None` is an unknown column. */
  function MapNames(columns: seq<Column>, names: seq<Str>, values: seq<Value>, k: nat): (r: Option<seq<Value>>)
    requires k <= |names|
    ensures r.Some? ==> |r.value| == |columns|
  {
    if k == 0 then Some(seq(|columns|, _ => Null))
    else
      match MapNames(columns, names, values, k - 1)
      case None => None
      case Some(mapped) =>
        if k - 1 >= |values| then Some(mapped)
        else
          var p := Position(columns, names[k - 1]);
          if p == |columns| then None else Some(mapped[p := values[k - 1]])
  }

  function MapRow(columns: seq<Column>, names: seq<Str>, values: seq<Value>): Option<seq<Value>> {
    if names == [] then Some(values) else MapNames(columns, names, values, |names|)
  }

  function MapRows(columns: seq<Column>, names: seq<Str>, rows: seq<seq<Value>>): Option<seq<seq<Value>>> {
    if rows == [] then Some([])
    else
      var init, last := MapRows(columns, names, rows[..|rows| - 1]), MapRow(columns, names, rows[|rows| - 1]);
      if init.None? || last.None? then None else Some(init.value + [last.value])
  }

  predicate FullArity(columns: seq<Column>, rows: seq<seq<Value>>) {
    forall i :: 0 <= i < |rows| ==> |columns| <= |rows[i]|
  }

  /** `id as i64`. */
  function AsI64(n: nat): i64 {
    var low := n % 0x1_0000_0000_0000_0000;
    if low < 0x8000_0000_0000_0000 then low else low - 0x1_0000_0000_0000_0000
  }

  ghost function DefaultOf(d: DefaultExpr, now: u64): Value {
    match d
    case DefaultValue(v) => v
    case CurrentTimestamp => Text(Show(StampOf(now)))
  }

  datatype FilledRow = FilledRow(defs: Definitions, values: seq<Value>, last: nat)

  /** NULLs in the first `k` columns replaced by the next sequence number or the default. */
  ghost function FillRow(c: Definitions, table: Str, columns: seq<Column>, values: seq<Value>, last: nat, now: u64,
      k: nat): (f: FilledRow)
    requires k <= |columns| <= |values|
    ensures |f.values| == |values|
    ensures f.defs.databases == c.databases
  {
    if k == 0 then FilledRow(c, values, last)
    else
      var f := FillRow(c, table, columns, values, last, now, k - 1);
      var column := columns[k - 1];
      if f.values[k - 1] != Null then f
      else if column.autoIncrement then
        var id := SequenceOf(f.defs, table);
        FilledRow(WithSequence(f.defs, table, id + 1), f.values[k - 1 := Int(AsI64(id))], id)
      else if column.defaultExpr.Some? then
        f.(values := f.values[k - 1 := DefaultOf(column.defaultExpr.value, now)])
      else f
  }

  datatype FilledRows = FilledRows(defs: Definitions, rows: seq<Row>, last: nat)

  ghost function FillRows(c: Definitions, table: Str, columns: seq<Column>, rows: seq<seq<Value>>,
      now: u64): (f: FilledRows)
    requires FullArity(columns, rows)
    ensures |f.rows| == |rows|
    ensures f.defs.databases == c.databases
    ensures forall r :: r in f.rows ==> r.id == 0
  {
    if rows == [] then FilledRows(c, [], 0)
    else
      var init := FillRows(c, table, columns, rows[..|rows| - 1], now);
      var f := FillRow(init.defs, table, columns, rows[|rows| - 1], init.last, now, |columns|);
      FilledRows(f.defs, init.rows + [Row(0, f.values)], f.last)
  }

  /** The first critical section of INSERT: the rows are stored. */
  function StoreRows(s: Store, table: Str, rows: seq<Row>): Store {
    Inserted(s, table, rows)
  }

  /** A row as the second critical section finds it: no values if it is gone by then. */
  function FoundRow(s: Store, table: Str, id: nat): Row {
    Row(id, if id in TableOf(s, table) then TableOf(s, table)[id].values else [])
  }

  function FoundRows(s: Store, table: Str, ids: seq<nat>): (rows: seq<Row>)
    ensures |rows| == |ids|
    ensures forall i :: 0 <= i < |ids| ==> rows[i] == FoundRow(s, table, ids[i])
  {
    seq(|ids|, i requires 0 <= i < |ids| => FoundRow(s, table, ids[i]))
  }

  /** The second critical section of INSERT: the ids are filed under the keys their rows have now. */
  function IndexRows(s: Store, table: Str, ids: seq<nat>, defs: seq<IndexDef>, columns: seq<Column>): Store {
    s.(indexData := FileRows(s.indexData, Lower(table), defs, columns, FoundRows(s, table, ids)))
  }

  ghost function ExecInsert(e: Engine, db: Str, table: Str, names: seq<Str>, source: Source, now: u64): Outcome {
    match GetTable(e.defs, db, table)
    case Err(x) => Outcome(e, Err(x))
    case Ok(def) =>
      match source
      case NoSource => Outcome(e, Err(MissingSource))
      case OtherSource => Outcome(e, Err(OnlyValues))
      case Rows(given) =>
        match MapRows(def.columns, names, given)
        case None => Outcome(e, Err(UnknownColumn))
        case Some(mapped) =>
          if !FullArity(def.columns, mapped) then Outcome(e, Err(RowTooShort))
          else
            var f := FillRows(e.defs, table, def.columns, mapped, now);
            var logged := Logged(e, InsertRows(table, f.rows));
            var ids := InsertedIds(e.store, table, f.rows);
            var stored := StoreRows(e.store, table, f.rows);
            var indexed := IndexRows(stored, table, ids, TableIndexes(e.defs, db, table), def.columns);
            Outcome(logged.(defs := f.defs, store := indexed), Ok(Affected(|given|, f.last)))
  }

  // ---- DELETE, UPDATE --------------------------------------------------------------------------

  /** The rows a condition selects. */
  function Chooses(selection: Option<Expr>, columns: seq<Column>, platform: Platform): Row -> bool {
    (r: Row) => Selected(selection, columns, r.values, platform)
  }

  function ChosenRows(t: Table, selection: Option<Expr>, columns: seq<Column>, platform: Platform): seq<Row> {
    Filter(Values(t), Chooses(selection, columns, platform))
  }

  function Remaining(t: Table, selection: Option<Expr>, columns: seq<Column>, platform: Platform): Table {
    map id | id in t && !Selected(selection, columns, t[id].values, platform) :: t[id]
  }

  /** The critical section of DELETE. */
  function DeleteRows(s: Store, table: Str, selection: Option<Expr>, defs: seq<IndexDef>, columns: seq<Column>,
      platform: Platform): Store {
    var t, tn := TableOf(s, table), Lower(table);
    s.(indexData := UnfileRows(s.indexData, tn, defs, columns, ChosenRows(t, selection, columns, platform)),
    tables := s.tables[tn := Remaining(t, selection, columns, platform)])
  }

  function WithSnapshot(e: Engine, table: Str, changed: nat): Engine {
    if changed == 0 then e else Logged(e, TableSnapshot(table, GetRows(e.store, table)))
  }

  function ExecDelete(e: Engine, db: Str, table: Str, selection: Option<Expr>, platform: Platform): Outcome {
    match GetTable(e.defs, db, table)
    case Err(x) => Outcome(e, Err(x))
    case Ok(def) =>
      if Lower(table) !in e.store.tables then Outcome(e, Err(UnknownTable))
      else
        var n := |ChosenRows(TableOf(e.store, table), selection, def.columns, platform)|;
        var s := DeleteRows(e.store, table, selection, TableIndexes(e.defs, db, table), def.columns, platform);
        Outcome(WithSnapshot(e.(store := s), table, n), Ok(Affected(n, 0)))
  }

  datatype Target = Target(index: nat, v: Value)

  /** The assignments with their columns found, in order; the first that fails is the error. */
  function Targets(columns: seq<Column>, assignments: seq<Assignment>): (r: Result<seq<Target>, Error>)
    ensures r.Err? ==> r.error == TupleAssignment || r.error == UnknownColumn
  {
    if assignments == [] then Ok([])
    else
      match Targets(columns, assignments[..|assignments| - 1])
      case Err(x) => Err(x)
      case Ok(init) =>
        match assignments[|assignments| - 1]
        case SetTuple => Err(TupleAssignment)
        case Set(name, v) =>
          var p := Position(columns, name);
          if p == |columns| then Err(UnknownColumn) else Ok(init + [Target(p, v)])
  }

  function Assigned(values: seq<Value>, targets: seq<Target>): (r: seq<Value>)
    ensures |r| == |values|
  {
    if targets == [] then values
    else
      var init, t := Assigned(values, targets[..|targets| - 1]), targets[|targets| - 1];
      if t.index < |values| then init[t.index := t.v] else init
  }

  function AssignedRow(r: Row, targets: seq<Target>): Row {
    r.(values := Assigned(r.values, targets))
  }

  function AssignedRows(rows: seq<Row>, targets: seq<Target>): (r: seq<Row>)
    ensures |r| == |rows|
    ensures forall i :: 0 <= i < |rows| ==> r[i] == AssignedRow(rows[i], targets)
  {
    seq(|rows|, i requires 0 <= i < |rows| => AssignedRow(rows[i], targets))
  }

  function Updated(t: Table, selection: Option<Expr>, columns: seq<Column>, targets: seq<Target>,
      platform: Platform): Table {
    map id | id in t :: if Selected(selection, columns, t[id].values, platform) then AssignedRow(t[id], targets) else t[id]
  }

  /** The critical section of UPDATE. */
  function UpdateRows(s: Store, table: Str, selection: Option<Expr>, targets: seq<Target>, defs: seq<IndexDef>,
      columns: seq<Column>, platform: Platform): Store {
    var t, tn := TableOf(s, table), Lower(table);
    var chosen := ChosenRows(t, selection, columns, platform);
    var unfiled := UnfileRows(s.indexData, tn, defs, columns, chosen);
    s.(indexData := FileRows(unfiled, tn, defs, columns, AssignedRows(chosen, targets)),
    tables := s.tables[tn := Updated(t, selection, columns, targets, platform)])
  }

  function ExecUpdate(e: Engine, db: Str, table: Str, assignments: seq<Assignment>, selection: Option<Expr>,
      platform: Platform): Outcome {
    match GetTable(e.defs, db, table)
    case Err(x) => Outcome(e, Err(x))
    case Ok(def) =>
      match Targets(def.columns, assignments)
      case Err(x) => Outcome(e, Err(x))
      case Ok(targets) =>
        if Lower(table) !in e.store.tables then Outcome(e, Err(UnknownTable))
        else
          var n := |ChosenRows(TableOf(e.store, table), selection, def.columns, platform)|;
          var s := UpdateRows(e.store, table, selection, targets, TableIndexes(e.defs, db, table), def.columns, platform);
          Outcome(WithSnapshot(e.(store := s), table, n), Ok(Affected(n, 0)))
  }

  // ---- CREATE INDEX, DROP INDEX ------------------------------------------------------------------

  const IDX: Str := [105, 100, 120, 95]

  function Joined(names: seq<Str>): Str {
    if names == [] then [] else if |names| == 1 then names[0] else names[0] + [95] + Joined(names[1..])
  }

  function IndexName(table: Str, given: Option<Str>, columns: seq<Str>): Str {
    match given
    case Some(name) => name
    case None => IDX + table + [95] + Joined(columns)
  }

  /** The index of a table, built from its rows. */
  function BuildIndex(def: IndexDef, columns: seq<Column>, rows: seq<Row>): Postings {
    if rows == [] then Postings(def.indexType, map[])
    else
      var last := rows[|rows| - 1];
      Add(BuildIndex(def, columns, rows[..|rows| - 1]), KeyOf(def, columns, last.values), last.id)
  }

  predicate HasDuplicate(def: IndexDef, columns: seq<Column>, rows: seq<Row>) {
    exists i, j :: 0 <= i < j < |rows| && KeyOf(def, columns, rows[i].values) == KeyOf(def, columns, rows[j].values)
  }

  function ExecCreateIndex(e: Engine, db: Str, table: Str, given: Option<Str>, indexType: IndexType,
      indexColumns: seq<Str>, unique: bool): Outcome {
    match GetTable(e.defs, db, table)
    case Err(_) => Outcome(e, Err(UnknownTable))
    case Ok(tableDef) =>
      if indexColumns == [] then Outcome(e, Err(NoIndexColumns))
      else
        var def := IndexDef(IndexName(table, given, indexColumns), indexType, table, indexColumns, unique);
        match WithIndex(e.defs, db, def)
        case Err(x) => Outcome(e, Err(x))
        case Ok(c) =>
          var logged := Logged(e, CreateIndex(db, def)).(defs := c);
          var rows, entry := GetRows(e.store, table), EntryName(Lower(table), def.name);
          if unique && HasDuplicate(def, tableDef.columns, rows) then
            Outcome(logged.(store := e.store.(indexData := e.store.indexData - {entry})), Err(DuplicateEntry))
          else
            var ix := BuildIndex(def, tableDef.columns, rows);
            Outcome(logged.(store := e.store.(indexData := e.store.indexData[entry := ix])), Ok(Done))
  }

  /** The first table met that has an index of that name. */
  function FindIndexTable(c: Definitions, db: Str, order: seq<Str>, name: Str): Option<Str> {
    if Lower(db) !in c.databases || order == [] then None
    else
      var lists := c.databases[Lower(db)].indexes;
      if order[0] in lists && HasIndex(lists[order[0]], name) then Some(order[0])
      else FindIndexTable(c, db, order[1..], name)
  }

  function ExecDropIndex(e: Engine, db: Str, name: Str, ifExists: bool, order: seq<Str>): Outcome {
    match FindIndexTable(e.defs, db, order, name)
    case None => Outcome(e, Err(UnknownIndex))
    case Some(table) =>
      if ifExists && !HasIndex(TableIndexes(e.defs, db, table), name) then Outcome(e, Ok(Done))
      else
        match WithoutIndex(e.defs, db, name, table)
        case Err(x) => Outcome(e, Err(x))
        case Ok(c) =>
          var logged := Logged(e, DropIndex(db, name, table)).(defs := c);
          var entry := EntryName(Lower(table), name);
          Outcome(logged.(store := e.store.(indexData := e.store.indexData - {entry})), Ok(Done))
  }

  // ---- Runs ----------------------------------------------------------------------------------------

  ghost function Exec(e: Engine, db: Str, s: Statement, platform: Platform): Outcome {
    match s
    case CreateTableStmt(name, columns, ifNotExists) => ExecCreateTable(e, db, name, columns, ifNotExists)
    case DropTableStmt(name, ifExists) => ExecDropTable(e, db, name, ifExists)
    case InsertStmt(table, names, source, now) => ExecInsert(e, db, table, names, source, now)
    case DeleteStmt(table, selection) => ExecDelete(e, db, table, selection, platform)
    case UpdateStmt(table, assignments, selection) => ExecUpdate(e, db, table, assignments, selection, platform)
    case CreateIndexStmt(table, name, indexType, columns, unique) => ExecCreateIndex(e, db, table, name, indexType, columns, unique)
    case DropIndexStmt(name, ifExists, order) => ExecDropIndex(e, db, name, ifExists, order)
  }

  /** The engine after the statements, one after another, failed ones included. */
  ghost function Run(db: Str, statements: seq<Statement>, platform: Platform): Engine {
    if statements == [] then FreshEngine
    else Exec(Run(db, statements[..|statements| - 1], platform), db, statements[|statements| - 1], platform).engine
  }

  /** The answer to the `k`-th statement of a run. */
  ghost function Answer(db: Str, statements: seq<Statement>, platform: Platform, k: nat): Result<Reply, Error>
    requires k < |statements|
  {
    Exec(Run(db, statements[..k], platform), db, statements[k], platform).result
  }

  /**
    * An INSERT with a VALUES row that is shorter than its table once its names are mapped: `row.values[idx]` is out of
    * bounds.
    */
  predicate DiesOnShortRow(e: Engine, db: Str, s: Statement) {
    && s.InsertStmt? && s.source.Rows? && GetTable(e.defs, db, s.table).Ok?
    && var columns := GetTable(e.defs, db, s.table).value.columns;
       var mapped := MapRows(columns, s.names, s.source.rows);
       mapped.Some? && !FullArity(columns, mapped.value)
  }

  /** `RowTooShort` is the answer of exactly those. */
  lemma ShortRowIsTheAnswer(e: Engine, db: Str, s: Statement, platform: Platform)
    ensures Exec(e, db, s, platform).result == Err(RowTooShort) <==> DiesOnShortRow(e, db, s)
  {
  }

  ghost predicate NoPanic(db: Str, statements: seq<Statement>, platform: Platform) {
    forall k :: 0 <= k < |statements| ==> !DiesOnShortRow(Run(db, statements[..k], platform), db, statements[k])
  }
}
