/**
  * The executor of `src/engine/executor.rs` as it works: loops over rows and index definitions, updating catalog,
  * storage and log.
  */
module Executors {
  import opened Prelude
  import opened Types
  import opened Index
  import opened Storage
  import opened Catalog
  import opened WalEntries
  import opened Maintenance
  import opened Where
  import opened Timestamp
  import opened Bincode
  import opened WalBytes
  import opened Engine
  import opened Cells
  import opened Sections
  import opened Recovery
  import opened Coherence
  import opened Select
  import opened OrderBy
  import opened Rebuild
  import opened Statements
  import opened Schemas

  // ---- Loops that compute values --------------------------------------------------------------------

  method PlaceNames(columns: seq<Column>, names: seq<Str>, values: seq<Value>) returns (r: Option<seq<Value>>)
    ensures r == MapNames(columns, names, values, |names|)
  {
    var mapped: seq<Value> := seq(|columns|, _ => Null);
    for i := 0 to |names|
      invariant MapNames(columns, names, values, i) == Some(mapped)
    {
      if i < |values| {
        var p := Position(columns, names[i]);
        if p == |columns| {
          FailsFrom(columns, names, values, i + 1);
          return None;
        }
        mapped := mapped[p := values[i]];
      }
    }
    r := Some(mapped);
  }

  lemma {:induction false} FailsFrom(columns: seq<Column>, names: seq<Str>, values: seq<Value>, k: nat)
    requires k <= |names| && MapNames(columns, names, values, k) == None
    ensures MapNames(columns, names, values, |names|) == None
    decreases |names| - k
  {
    if k < |names| {
      FailsFrom(columns, names, values, k + 1);
    }
  }

  method PlaceRows(columns: seq<Column>, names: seq<Str>, given: seq<seq<Value>>) returns (r: Option<seq<seq<Value>>>)
    ensures r == MapRows(columns, names, given)
    ensures AllPlaced(columns, names, given, r)
  {
    RowsPlaced(columns, names, given);
    var rows: seq<seq<Value>> := [];
    for i := 0 to |given|
      invariant MapRows(columns, names, given[..i]) == Some(rows)
    {
      assert given[..i + 1][..i] == given[..i];
      var mapped := Some(given[i]);
      if names != [] {
        mapped := PlaceNames(columns, names, given[i]);
      }
      if mapped == None {
        RowFails(columns, names, given, i + 1);
        return None;
      }
      rows := rows + [mapped.value];
    }
    assert given[..|given|] == given;
    r := Some(rows);
  }

  lemma {:induction false} RowFails(columns: seq<Column>, names: seq<Str>, given: seq<seq<Value>>, k: nat)
    requires k <= |given| && MapRows(columns, names, given[..k]) == None
    ensures MapRows(columns, names, given) == None
    decreases |given| - k
  {
    if k < |given| {
      assert given[..k + 1][..k] == given[..k];
      RowFails(columns, names, given, k + 1);
    } else {
      assert given[..k] == given;
    }
  }

  method Keep(rows: seq<Row>, keep: Row -> bool) returns (kept: seq<Row>)
    ensures kept == Filter(rows, keep)
  {
    kept := [];
    for i := 0 to |rows|
      invariant kept == Filter(rows[..i], keep)
    {
      assert rows[..i + 1][..i] == rows[..i];
      if keep(rows[i]) {
        kept := kept + [rows[i]];
      }
    }
    assert rows[..|rows|] == rows;
  }

  method CollectChosen(t: Table, selection: Option<Expr>, columns: seq<Column>,
      platform: Platform) returns (chosen: seq<Row>)
    ensures chosen == ChosenRows(t, selection, columns, platform)
  {
    chosen := Keep(Values(t), Chooses(selection, columns, platform));
  }

  method FindTargets(columns: seq<Column>, assignments: seq<Assignment>) returns (r: Result<seq<Target>, Error>)
    ensures r == Targets(columns, assignments)
    ensures Resolved(columns, assignments, r)
  {
    TargetsAreNamed(columns, assignments);
    var pairs: seq<Target> := [];
    for i := 0 to |assignments|
      invariant Targets(columns, assignments[..i]) == Ok(pairs)
    {
      assert assignments[..i + 1][..i] == assignments[..i];
      match assignments[i] {
        case SetTuple =>
          TargetFails(columns, assignments, i + 1);
          return Err(TupleAssignment);
        case Set(name, v) =>
          var p := Position(columns, name);
          if p == |columns| {
            TargetFails(columns, assignments, i + 1);
            return Err(UnknownColumn);
          }
          pairs := pairs + [Target(p, v)];
      }
    }
    assert assignments[..|assignments|] == assignments;
    r := Ok(pairs);
  }

  lemma {:induction false} TargetFails(columns: seq<Column>, assignments: seq<Assignment>, k: nat)
    requires k <= |assignments| && Targets(columns, assignments[..k]).Err?
    ensures Targets(columns, assignments) == Targets(columns, assignments[..k])
    decreases |assignments| - k
  {
    if k < |assignments| {
      assert assignments[..k + 1][..k] == assignments[..k];
      TargetFails(columns, assignments, k + 1);
    } else {
      assert assignments[..k] == assignments;
    }
  }

  method AssignAll(rows: seq<Row>, targets: seq<Target>) returns (changed: seq<Row>)
    ensures changed == AssignedRows(rows, targets)
  {
    changed := [];
    for i := 0 to |rows|
      invariant changed == AssignedRows(rows, targets)[..i]
    {
      var values := rows[i].values;
      for k := 0 to |targets|
        invariant |values| == |rows[i].values|
        invariant values == Assigned(rows[i].values, targets[..k])
      {
        assert targets[..k + 1][..k] == targets[..k];
        if targets[k].index < |values| {
          values := values[targets[k].index := targets[k].v];
        }
      }
      assert targets[..|targets|] == targets;
      changed := changed + [rows[i].(values := values)];
    }
  }

  /** Takes the rows of these ids out, one after another. */
  method RemoveIds(t: Table, rows: seq<Row>) returns (left: Table)
    ensures forall id :: id in left <==> id in t && forall j :: 0 <= j < |rows| ==> rows[j].id != id
    ensures forall id :: id in left ==> left[id] == t[id]
  {
    left := t;
    for i := 0 to |rows|
      invariant forall id :: id in left <==> id in t && forall j :: 0 <= j < i ==> rows[j].id != id
      invariant forall id :: id in left ==> left[id] == t[id]
    {
      left := left - {rows[i].id};
    }
  }

  method RemoveRows(t: Table, chosen: seq<Row>, ghost selection: Option<Expr>, ghost columns: seq<Column>,
      ghost platform: Platform)
    returns (left: Table)
    requires Chosen(chosen, t, selection, columns, platform)
    ensures left == Remaining(t, selection, columns, platform)
  {
    left := RemoveIds(t, chosen);
    forall id | id in t ensures id in left <==> !Selected(selection, columns, t[id].values, platform) {
      ChosenById(chosen, t, selection, columns, platform, id);
    }
  }

  lemma ChosenById(chosen: seq<Row>, t: Table, selection: Option<Expr>, columns: seq<Column>, platform: Platform,
      id: nat)
    requires Chosen(chosen, t, selection, columns, platform) && id in t
    ensures Selected(selection, columns, t[id].values, platform) <==> exists j :: 0 <= j < |chosen| && chosen[j].id == id
    ensures forall j :: 0 <= j < |chosen| && chosen[j].id == id ==> chosen[j] == t[id]
  {
    forall j | 0 <= j < |chosen| && chosen[j].id == id ensures chosen[j] == t[id] && Selected(selection, columns, t[id].values, platform) {
      assert chosen[j] in chosen;
    }
    if Selected(selection, columns, t[id].values, platform) {
      assert t[id] in chosen;
      var j :| 0 <= j < |chosen| && chosen[j] == t[id];
      assert chosen[j].id == id;
    }
  }

  /** Writes rows under their ids, one after another. */
  method WriteIds(t: Table, rows: seq<Row>) returns (written: Table)
    requires forall i :: 0 <= i < |rows| ==> rows[i].id in t
    requires forall i, j :: 0 <= i < j < |rows| ==> rows[i].id != rows[j].id
    ensures written.Keys == t.Keys
    ensures forall j :: 0 <= j < |rows| ==> written[rows[j].id] == rows[j]
    ensures forall id :: id in t && (forall j :: 0 <= j < |rows| ==> rows[j].id != id) ==> written[id] == t[id]
  {
    written := t;
    for i := 0 to |rows|
      invariant written.Keys == t.Keys
      invariant forall j :: 0 <= j < i ==> written[rows[j].id] == rows[j]
      invariant forall id :: id in t && (forall j :: 0 <= j < i ==> rows[j].id != id) ==> written[id] == t[id]
    {
      written := written[rows[i].id := rows[i]];
    }
  }

  method WriteRows(t: Table, chosen: seq<Row>, changed: seq<Row>, ghost targets: seq<Target>,
                   ghost selection: Option<Expr>, ghost columns: seq<Column>, ghost platform: Platform)
    returns (written: Table)
    requires Chosen(chosen, t, selection, columns, platform) && changed == AssignedRows(chosen, targets)
    ensures written == Updated(t, selection, columns, targets, platform)
  {
    forall i | 0 <= i < |chosen| ensures chosen[i].id in t {
      assert chosen[i] in chosen;
    }
    written := WriteIds(t, changed);
    forall id | id in t ensures written[id] == Updated(t, selection, columns, targets, platform)[id] {
      ChosenById(chosen, t, selection, columns, platform, id);
      if Selected(selection, columns, t[id].values, platform) {
        var j :| 0 <= j < |chosen| && chosen[j].id == id;
        assert changed[j].id == id;
      }
    }
  }

  /** The chosen rows, and the table without them. */
  method SplitRows(t: Table, selection: Option<Expr>, columns: seq<Column>, platform: Platform, ghost next: nat)
    returns (chosen: seq<Row>, left: Table)
    requires WfTable(t, next)
    ensures chosen == ChosenRows(t, selection, columns, platform)
    ensures left == Remaining(t, selection, columns, platform) && WfTable(left, next)
  {
    chosen := CollectChosen(t, selection, columns, platform);
    ChosenRowsAreChosen(t, selection, columns, platform, next);
    left := RemoveRows(t, chosen, selection, columns, platform);
  }

  /** The chosen rows as they were and as they become, and the table with them changed. */
  method ChangeRows(t: Table, selection: Option<Expr>, columns: seq<Column>, targets: seq<Target>,
      platform: Platform, ghost next: nat)
    returns (chosen: seq<Row>, changed: seq<Row>, written: Table)
    requires WfTable(t, next)
    ensures chosen == ChosenRows(t, selection, columns, platform) && changed == AssignedRows(chosen, targets)
    ensures written == Updated(t, selection, columns, targets, platform) && WfTable(written, next)
  {
    chosen := CollectChosen(t, selection, columns, platform);
    ChosenRowsAreChosen(t, selection, columns, platform, next);
    changed := AssignAll(chosen, targets);
    written := WriteRows(t, chosen, changed, targets, selection, columns, platform);
    UpdatedKeepsWf(t, selection, columns, targets, platform, next);
  }

  lemma LookupFinds(def: IndexDef, columns: seq<Column>, rows: seq<Row>, key: Key)
    ensures Ids(BuildIndex(def, columns, rows), key) != []
       <==> exists j :: 0 <= j < |rows| && KeyOf(def, columns, rows[j].values) == key
  {
    BuildIndexFiles(def, columns, rows);
    var ids := Ids(BuildIndex(def, columns, rows), key);
    if ids != [] {
      assert ids[0] in ids;
      assert Held(rows, def, columns, key, ids[0]);
    }
    if j :| 0 <= j < |rows| && KeyOf(def, columns, rows[j].values) == key {
      assert Held(rows, def, columns, key, rows[j].id);
    }
  }

  /** No row before the `i`-th has its key. */
  predicate NewKey(def: IndexDef, columns: seq<Column>, rows: seq<Row>, i: nat)
    requires i < |rows|
  {
    forall j :: 0 <= j < i ==> KeyOf(def, columns, rows[j].values) != KeyOf(def, columns, rows[i].values)
  }

  lemma KeyIsNew(def: IndexDef, columns: seq<Column>, rows: seq<Row>, i: nat)
    requires i < |rows|
    ensures Ids(BuildIndex(def, columns, rows[..i]), KeyOf(def, columns, rows[i].values)) == [] <==> NewKey(def, columns, rows, i)
  {
    LookupFinds(def, columns, rows[..i], KeyOf(def, columns, rows[i].values));
    forall j | 0 <= j < i ensures rows[..i][j] == rows[j] { }
  }

  lemma DuplicateIsOldKey(def: IndexDef, columns: seq<Column>, rows: seq<Row>)
    ensures HasDuplicate(def, columns, rows) <==> exists i :: 0 <= i < |rows| && !NewKey(def, columns, rows, i)
  {
    if HasDuplicate(def, columns, rows) {
      var i, j :| 0 <= i < j < |rows| && KeyOf(def, columns, rows[i].values) == KeyOf(def, columns, rows[j].values);
      assert !NewKey(def, columns, rows, j);
    }
  }

  /** The loop of CREATE INDEX; `None` when a unique index meets a key twice. */
  method BuildIndexData(def: IndexDef, columns: seq<Column>, rows: seq<Row>) returns (ix: Option<Postings>)
    ensures ix == if def.unique && HasDuplicate(def, columns, rows) then None else Some(BuildIndex(def, columns, rows))
  {
    var data := new IndexData(def.indexType);
    DuplicateIsOldKey(def, columns, rows);
    for i := 0 to |rows|
      invariant fresh(data)
      invariant data.View() == BuildIndex(def, columns, rows[..i])
      invariant def.unique ==> forall k :: 0 <= k < i ==> NewKey(def, columns, rows, k)
    {
      assert rows[..i + 1][..i] == rows[..i];
      var key := KeyOf(def, columns, rows[i].values);
      if def.unique {
        var existing := data.LookupEq(key);
        KeyIsNew(def, columns, rows, i);
        if existing != [] {
          return None;
        }
      }
      data.Insert(key, rows[i].id);
    }
    assert rows[..|rows|] == rows;
    ix := Some(Postings(data.kind, data.lists));
  }

  // ---- The executor ---------------------------------------------------------------------------------------

  class Executor {
    const catalog: Catalog
    const storage: Storage
    const wal: Wal
    /** What has been appended to the log. */
    ghost var log: seq<WalEntry>

    constructor ()
      ensures Valid() && View() == FreshEngine
      ensures fresh(catalog) && fresh(storage) && fresh(wal)
    {
      catalog := new Catalog();
      storage := new Storage();
      wal := new Wal();
      log := [];
    }

    /** The file holds the log's entries and every row is stored under its own id. */
    ghost predicate Valid()
      reads this, storage, wal
    {
      wal.bytes == SerializeAll(log) && WfStore(storage.View())
    }

    ghost function View(): Engine
      reads this, catalog, storage
    {
      Engine(catalog.View(), storage.View(), log)
    }

    method LogWal(entry: WalEntry)
      requires wal.bytes == SerializeAll(log)
      modifies this, wal
      ensures log == old(log) + [entry] && wal.bytes == SerializeAll(log)
    {
      EncAllBack(Serialize, log + [entry]);
      assert (log + [entry])[..|log|] == log;
      wal.Append(entry);
      log := log + [entry];
    }

    method InsertIntoIndexes(tn: Str, defs: seq<IndexDef>, columns: seq<Column>, row: Row)
      modifies storage
      ensures storage.View() == old(storage.View()).(indexData := old(FileRow(storage.indexData, tn, defs, columns, row)))
    {
      for i := 0 to |defs|
        invariant storage.tables == old(storage.tables) && storage.nextIds == old(storage.nextIds)
        invariant storage.indexData == FileRow(old(storage.indexData), tn, defs[..i], columns, row)
      {
        assert defs[..i + 1][..i] == defs[..i];
        var key := KeyOf(defs[i], columns, row.values);
        var entry := EntryName(tn, defs[i].name);
        var data := new IndexData.Of(if entry in storage.indexData then storage.indexData[entry] else Postings(defs[i].indexType, map[]));
        data.Insert(key, row.id);
        storage.indexData := storage.indexData[entry := Postings(data.kind, data.lists)];
      }
      assert defs[..|defs|] == defs;
    }

    method DeleteFromIndexes(tn: Str, defs: seq<IndexDef>, columns: seq<Column>, row: Row)
      modifies storage
      ensures storage.View() == old(storage.View()).(indexData := old(UnfileRow(storage.indexData, tn, defs, columns, row)))
    {
      for i := 0 to |defs|
        invariant storage.tables == old(storage.tables) && storage.nextIds == old(storage.nextIds)
        invariant storage.indexData == UnfileRow(old(storage.indexData), tn, defs[..i], columns, row)
      {
        assert defs[..i + 1][..i] == defs[..i];
        var key := KeyOf(defs[i], columns, row.values);
        var entry := EntryName(tn, defs[i].name);
        if entry in storage.indexData {
          var data := new IndexData.Of(storage.indexData[entry]);
          data.Delete(key, row.id);
          storage.indexData := storage.indexData[entry := Postings(data.kind, data.lists)];
        }
      }
      assert defs[..|defs|] == defs;
    }

    method FileAll(tn: Str, defs: seq<IndexDef>, columns: seq<Column>, rows: seq<Row>)
      modifies storage
      ensures storage.View() == old(storage.View()).(indexData := old(FileRows(storage.indexData, tn, defs, columns, rows)))
    {
      for i := 0 to |rows|
        invariant storage.View() == old(storage.View()).(indexData := FileRows(old(storage.indexData), tn, defs, columns, rows[..i]))
      {
        assert rows[..i + 1][..i] == rows[..i];
        InsertIntoIndexes(tn, defs, columns, rows[i]);
      }
      assert rows[..|rows|] == rows;
    }

    method UnfileAll(tn: Str, defs: seq<IndexDef>, columns: seq<Column>, rows: seq<Row>)
      modifies storage
      ensures storage.View() == old(storage.View()).(indexData := old(UnfileRows(storage.indexData, tn, defs, columns, rows)))
    {
      for i := 0 to |rows|
        invariant storage.View() == old(storage.View()).(indexData := UnfileRows(old(storage.indexData), tn, defs, columns, rows[..i]))
      {
        assert rows[..i + 1][..i] == rows[..i];
        DeleteFromIndexes(tn, defs, columns, rows[i]);
      }
      assert rows[..|rows|] == rows;
    }

    method ExecuteCreateTable(db: Str, name: Str, columns: seq<Column>, ifNotExists: bool) returns (r: Result<Reply, Error>)
      requires Valid()
      modifies this, catalog, wal
      ensures Valid() && Outcome(View(), r) == old(ExecCreateTable(View(), db, name, columns, ifNotExists))
      ensures CreatesTable(old(View()), db, name, columns, ifNotExists, Outcome(View(), r))
    {
      CreateTableEffect(View(), db, name, columns, ifNotExists);
      if ifNotExists && GetTable(Definitions(catalog.databases, catalog.sequences), db, name).Ok? {
        return Ok(Done);
      }
      LogWal(CreateTable(name, columns));
      var failure := catalog.CreateTable(db, name, columns);
      r := if failure == None then Ok(Done) else Err(failure.value);
    }

    method ExecuteDropTable(db: Str, name: Str, ifExists: bool) returns (r: Result<Reply, Error>)
      requires Valid()
      modifies this, catalog, storage, wal
      ensures Valid() && Outcome(View(), r) == old(ExecDropTable(View(), db, name, ifExists))
      ensures DropsTable(old(View()), db, name, ifExists, Outcome(View(), r))
    {
      DropTableEffect(View(), db, name, ifExists);
      var tn := Lower(name);
      if ifExists && GetTable(Definitions(catalog.databases, catalog.sequences), db, name).Err? {
        return Ok(Done);
      }
      LogWal(DropTable(tn));
      var failure := catalog.DropTable(db, tn);
      if failure.Some? {
        return Err(failure.value);
      }
      ClearedKeepsWf(storage.View(), tn);
      storage.ClearTable(tn);
      r := Ok(Done);
    }

    // ---- INSERT ------------------------------------------------------------------------------------------

    method FillDefaults(table: Str, columns: seq<Column>, values: seq<Value>, last: nat,
        now: u64) returns (filled: seq<Value>, newLast: nat)
      requires |columns| <= |values|
      modifies catalog
      ensures FilledRow(catalog.View(), filled, newLast) == old(FillRow(catalog.View(), table, columns, values, last, now, |columns|))
    {
      filled, newLast := values, last;
      for i := 0 to |columns|
        invariant FilledRow(catalog.View(), filled, newLast) == FillRow(old(catalog.View()), table, columns, values, last, now, i)
      {
        assert |filled| == |values|;
        if filled[i] == Null {
          if columns[i].autoIncrement {
            newLast := catalog.NextRowId(table, 1);
            filled := filled[i := Int(AsI64(newLast))];
          } else if columns[i].defaultExpr.Some? {
            var v: Value;
            match columns[i].defaultExpr.value {
              case DefaultValue(d) => v := d;
              case CurrentTimestamp => v := FormatTimestamp(now);
            }
            filled := filled[i := v];
          }
        }
      }
    }

    method FillAll(table: Str, columns: seq<Column>, mapped: seq<seq<Value>>, now: u64) returns (rows: seq<Row>, last: nat)
      requires FullArity(columns, mapped)
      modifies catalog
      ensures FilledRows(catalog.View(), rows, last) == old(FillRows(catalog.View(), table, columns, mapped, now))
    {
      rows, last := [], 0;
      for i := 0 to |mapped|
        invariant FilledRows(catalog.View(), rows, last) == FillRows(old(catalog.View()), table, columns, mapped[..i], now)
      {
        assert mapped[..i + 1][..i] == mapped[..i];
        var values: seq<Value>;
        values, last := FillDefaults(table, columns, mapped[i], last, now);
        rows := rows + [Row(0, values)];
      }
      assert mapped[..|mapped|] == mapped;
    }

    /** The second critical section of INSERT. */
    method IndexInserted(table: Str, ids: seq<nat>, defs: seq<IndexDef>, columns: seq<Column>)
      modifies storage
      ensures storage.View() == old(IndexRows(storage.View(), table, ids, defs, columns))
    {
      ghost var start := storage.View();
      ghost var rows := FoundRows(start, table, ids);
      for i := 0 to |ids|
        invariant storage.View() == start.(indexData := FileRows(start.indexData, Lower(table), defs, columns, rows[..i]))
      {
        assert rows[..i + 1][..i] == rows[..i];
        var row := FoundRow(Store(storage.tables, storage.nextIds, storage.indexData), table, ids[i]);
        InsertIntoIndexes(Lower(table), defs, columns, row);
      }
      assert rows[..|ids|] == rows;
    }

    method StoreAndIndex(table: Str, rows: seq<Row>, defs: seq<IndexDef>, columns: seq<Column>)
      requires Valid()
      modifies this, storage, wal
      ensures Valid() && log == old(log) + [InsertRows(table, rows)]
      ensures storage.View() == old(IndexRows(StoreRows(storage.View(), table, rows), table, InsertedIds(storage.View(), table, rows), defs, columns))
    {
      InsertedKeepsWf(storage.View(), table, rows);
      LogWal(InsertRows(table, rows));
      var ids := storage.InsertRows(table, rows);
      if defs != [] && ids != [] {
        IndexInserted(table, ids, defs, columns);
      } else {
        NothingFiled(storage.View(), table, ids, defs, columns);
      }
    }

    static lemma {:induction false} NothingFiled(s: Store, table: Str, ids: seq<nat>, defs: seq<IndexDef>, columns: seq<Column>)
      requires defs == [] || ids == []
      ensures IndexRows(s, table, ids, defs, columns) == s
    {
      NoDefinitions(s.indexData, Lower(table), defs, columns, FoundRows(s, table, ids));
    }

    static lemma {:induction false} NoDefinitions(data: Entries, tn: Str, defs: seq<IndexDef>, columns: seq<Column>,
        rows: seq<Row>)
      requires defs == [] || rows == []
      ensures FileRows(data, tn, defs, columns, rows) == data
    {
      if rows != [] {
        NoDefinitions(data, tn, defs, columns, rows[..|rows| - 1]);
      }
    }

    /** A VALUES row shorter than the table is the panic `RowTooShort`; what it leaves behind is not modelled. */
    method ExecuteInsert(db: Str, table: Str, names: seq<Str>, source: Source, now: u64) returns (r: Result<Reply, Error>)
      requires Valid()
      modifies this, catalog, storage, wal
      ensures Valid() && Outcome(View(), r) == old(ExecInsert(View(), db, table, names, source, now))
      ensures Inserts(old(View()), db, table, names, source, now, Outcome(View(), r))
    {
      InsertEffect(View(), db, table, names, source, now);
      var found := GetTable(Definitions(catalog.databases, catalog.sequences), db, table);
      if found.Err? {
        return Err(found.error);
      }
      var columns := found.value.columns;
      match source {
        case NoSource => return Err(MissingSource);
        case OtherSource => return Err(OnlyValues);
        case Rows(given) =>
          var mapped := PlaceRows(columns, names, given);
          if mapped == None {
            return Err(UnknownColumn);
          }
          if !FullArity(columns, mapped.value) {
            return Err(RowTooShort);
          }
          var rows, last := FillAll(table, columns, mapped.value, now);
          var defs := TableIndexes(Definitions(catalog.databases, catalog.sequences), db, table);
          StoreAndIndex(table, rows, defs, columns);
          r := Ok(Affected(|given|, last));
      }
    }

    // ---- DELETE, UPDATE ----------------------------------------------------------------------------------

    method LogSnapshot(table: Str, changed: nat)
      requires Valid()
      modifies this, wal
      ensures Valid() && View() == old(WithSnapshot(View(), table, changed))
    {
      if changed > 0 {
        LogWal(TableSnapshot(table, GetRows(Store(storage.tables, storage.nextIds, storage.indexData), table)));
      }
    }

    /** The critical section of DELETE. */
    method DeleteChosen(table: Str, selection: Option<Expr>, defs: seq<IndexDef>, columns: seq<Column>,
        platform: Platform) returns (deleted: nat)
      requires WfStore(storage.View()) && Lower(table) in storage.tables
      modifies storage
      ensures WfStore(storage.View())
      ensures storage.View() == old(DeleteRows(storage.View(), table, selection, defs, columns, platform))
      ensures deleted == old(|ChosenRows(TableOf(storage.View(), table), selection, columns, platform)|)
    {
      var tn := Lower(table);
      var chosen, left := SplitRows(storage.tables[tn], selection, columns, platform, storage.nextIds[tn]);
      UnfileAll(tn, defs, columns, chosen);
      storage.tables := storage.tables[tn := left];
      deleted := |chosen|;
    }

    method ExecuteDelete(db: Str, table: Str, selection: Option<Expr>, platform: Platform) returns (r: Result<Reply, Error>)
      requires Valid()
      modifies this, storage, wal
      ensures Valid() && Outcome(View(), r) == old(ExecDelete(View(), db, table, selection, platform))
      ensures Deletes(old(View()), db, table, selection, platform, Outcome(View(), r))
    {
      DeleteEffect(View(), db, table, selection, platform);
      var defs := Definitions(catalog.databases, catalog.sequences);
      var found := GetTable(defs, db, table);
      if found.Err? {
        return Err(found.error);
      }
      if Lower(table) !in storage.tables {
        return Err(UnknownTable);
      }
      var deleted := DeleteChosen(table, selection, TableIndexes(defs, db, table), found.value.columns, platform);
      LogSnapshot(table, deleted);
      r := Ok(Affected(deleted, 0));
    }

    /** The critical section of UPDATE: old entries out, new values in, new entries in. */
    method UpdateChosen(table: Str, selection: Option<Expr>, targets: seq<Target>, defs: seq<IndexDef>,
        columns: seq<Column>, platform: Platform)
      returns (updated: nat)
      requires WfStore(storage.View()) && Lower(table) in storage.tables
      modifies storage
      ensures WfStore(storage.View())
      ensures storage.View() == old(UpdateRows(storage.View(), table, selection, targets, defs, columns, platform))
      ensures updated == old(|ChosenRows(TableOf(storage.View(), table), selection, columns, platform)|)
    {
      var tn := Lower(table);
      var chosen, changed, written := ChangeRows(storage.tables[tn], selection, columns, targets, platform, storage.nextIds[tn]);
      UnfileAll(tn, defs, columns, chosen);
      storage.tables := storage.tables[tn := written];
      FileAll(tn, defs, columns, changed);
      updated := |chosen|;
    }

    method ExecuteUpdate(db: Str, table: Str, assignments: seq<Assignment>, selection: Option<Expr>, platform: Platform)
      returns (r: Result<Reply, Error>)
      requires Valid()
      modifies this, storage, wal
      ensures Valid() && Outcome(View(), r) == old(ExecUpdate(View(), db, table, assignments, selection, platform))
      ensures Updates(old(View()), db, table, assignments, selection, platform, Outcome(View(), r))
    {
      UpdateEffect(View(), db, table, assignments, selection, platform);
      var defs := Definitions(catalog.databases, catalog.sequences);
      var found := GetTable(defs, db, table);
      if found.Err? {
        return Err(found.error);
      }
      var targets := FindTargets(found.value.columns, assignments);
      if targets.Err? {
        return Err(targets.error);
      }
      if Lower(table) !in storage.tables {
        return Err(UnknownTable);
      }
      var updated := UpdateChosen(table, selection, targets.value, TableIndexes(defs, db, table), found.value.columns, platform);
      LogSnapshot(table, updated);
      r := Ok(Affected(updated, 0));
    }

    // ---- CREATE INDEX, DROP INDEX --------------------------------------------------------------------------

    method ExecuteCreateIndex(db: Str, table: Str, given: Option<Str>, indexType: IndexType, indexColumns: seq<Str>, unique: bool)
      returns (r: Result<Reply, Error>)
      requires Valid()
      modifies this, catalog, storage, wal
      ensures Valid() && Outcome(View(), r) == old(ExecCreateIndex(View(), db, table, given, indexType, indexColumns, unique))
      ensures CreatesIndex(old(View()), db, table, given, indexType, indexColumns, unique, Outcome(View(), r))
    {
      CreateIndexEffect(View(), db, table, given, indexType, indexColumns, unique);
      var found := GetTable(Definitions(catalog.databases, catalog.sequences), db, table);
      if found.Err? {
        return Err(UnknownTable);
      }
      if indexColumns == [] {
        return Err(NoIndexColumns);
      }
      var def := IndexDef(IndexName(table, given, indexColumns), indexType, table, indexColumns, unique);
      var failure := catalog.CreateIndex(db, def);
      if failure.Some? {
        return Err(failure.value);
      }
      LogWal(CreateIndex(db, def));
      var entry := EntryName(Lower(table), def.name);
      var rows := GetRows(Store(storage.tables, storage.nextIds, storage.indexData), table);
      var built := BuildIndexData(def, found.value.columns, rows);
      if built == None {
        storage.indexData := storage.indexData - {entry};
        return Err(DuplicateEntry);
      }
      storage.indexData := storage.indexData[entry := built.value];
      r := Ok(Done);
    }

    method ExecuteDropIndex(db: Str, name: Str, ifExists: bool, order: seq<Str>) returns (r: Result<Reply, Error>)
      requires Valid()
      modifies this, catalog, storage, wal
      ensures Valid() && Outcome(View(), r) == old(ExecDropIndex(View(), db, name, ifExists, order))
      ensures LowercaseLists(old(View()).defs) ==> DropsIndex(old(View()), db, name, order, Outcome(View(), r))
    {
      if LowercaseLists(View().defs) {
        DropIndexEffect(View(), db, name, ifExists, order);
      }
      var defs := Definitions(catalog.databases, catalog.sequences);
      var table := FindIndexTable(defs, db, order, name);
      if table == None {
        return Err(UnknownIndex);
      }
      if ifExists && !HasIndex(TableIndexes(defs, db, table.value), name) {
        return Ok(Done);
      }
      var failure := catalog.DropIndex(db, name, table.value);
      if failure.Some? {
        return Err(failure.value);
      }
      LogWal(DropIndex(db, name, table.value));
      storage.indexData := storage.indexData - {EntryName(Lower(table.value), name)};
      r := Ok(Done);
    }

    /** One statement: the answer and the whole new state are those of `Exec`. */
    method Execute(db: Str, s: Statement, platform: Platform) returns (r: Result<Reply, Error>)
      requires Valid()
      modifies this, catalog, storage, wal
      ensures Valid() && Outcome(View(), r) == old(Exec(View(), db, s, platform))
    {
      match s {
        case CreateTableStmt(name, columns, ifNotExists) => r := ExecuteCreateTable(db, name, columns, ifNotExists);
        case DropTableStmt(name, ifExists) => r := ExecuteDropTable(db, name, ifExists);
        case InsertStmt(table, names, source, now) => r := ExecuteInsert(db, table, names, source, now);
        case DeleteStmt(table, selection) => r := ExecuteDelete(db, table, selection, platform);
        case UpdateStmt(table, assignments, selection) => r := ExecuteUpdate(db, table, assignments, selection, platform);
        case CreateIndexStmt(table, name, kind, columns, unique) => r := ExecuteCreateIndex(db, table, name, kind, columns, unique);
        case DropIndexStmt(name, ifExists, order) => r := ExecuteDropIndex(db, name, ifExists, order);
      }
    }

    // ---- SELECT -----------------------------------------------------------------------------------------------

    /** The key the conditions give for an index, if they give all its columns. */
    static method FindKey(def: IndexDef, eq: map<Str, Value>) returns (key: Option<Key>)
      ensures key == FullKey(def, eq)
    {
      var values: Key := [];
      for i := 0 to |def.columns|
        invariant PartialKey(def, eq, i) == Some(values)
      {
        if Lower(def.columns[i]) !in eq {
          NoPartialKey(def, eq, i + 1);
          return None;
        }
        values := values + [eq[Lower(def.columns[i])]];
      }
      key := if values == [] then None else Some(values);
      assert |values| == |def.columns| by { PartialKeyLength(def, eq, |def.columns|); }
    }

    static lemma {:induction false} NoPartialKey(def: IndexDef, eq: map<Str, Value>, k: nat)
      requires k <= |def.columns| && PartialKey(def, eq, k) == None
      ensures PartialKey(def, eq, |def.columns|) == None
      decreases |def.columns| - k
    {
      if k < |def.columns| {
        NoPartialKey(def, eq, k + 1);
      }
    }

    static lemma {:induction false} PartialKeyLength(def: IndexDef, eq: map<Str, Value>, k: nat)
      requires k <= |def.columns| && PartialKey(def, eq, k).Some?
      ensures |PartialKey(def, eq, k).value| == k
    {
      if k > 0 {
        PartialKeyLength(def, eq, k - 1);
      }
    }

    /** The ids that the first usable index gives; `None` when the table must be scanned. */
    method TryIndexLookup(table: Str, selection: Expr, defs: seq<IndexDef>) returns (ids: Option<seq<nat>>)
      ensures ids == IndexLookup(storage.View(), table, selection, defs)
    {
      var eq := EqConditions(selection, map[]);
      if eq == map[] {
        return None;
      }
      var tn := Lower(table);
      for i := 0 to |defs|
        invariant FirstUsable(storage.indexData, tn, defs, eq) == i + FirstUsable(storage.indexData, tn, defs[i..], eq)
      {
        var key := FindKey(defs[i], eq);
        var entry := EntryName(tn, defs[i].name);
        if key.Some? && entry in storage.indexData {
          var data := new IndexData.Of(storage.indexData[entry]);
          var found := data.LookupEq(key.value);
          return Some(found);
        }
        assert defs[i..][1..] == defs[i + 1..];
      }
      ids := None;
    }

    /** The rows of a SELECT before they are ordered and projected. */
    method SelectFrom(db: Str, table: Str, selection: Option<Expr>, platform: Platform) returns (r: Result<seq<Row>, Error>)
      ensures match GetTable(catalog.View(), db, table)
              case Err(x) => r == Err(x)
              case Ok(def) => r == Ok(SelectRows(storage.View(), table, selection, TableIndexes(catalog.View(), db, table), def.columns, platform))
    {
      var definitions := Definitions(catalog.databases, catalog.sequences);
      var found := GetTable(definitions, db, table);
      if found.Err? {
        return Err(found.error);
      }
      var columns := found.value.columns;
      var t := TableOf(Store(storage.tables, storage.nextIds, storage.indexData), table);
      var ids: Option<seq<nat>> := None;
      if selection.Some? {
        ids := TryIndexLookup(table, selection.value, TableIndexes(definitions, db, table));
      }
      if ids.Some? {
        var rows: seq<Row> := [];
        for i := 0 to |ids.value|
          invariant rows == Fetch(t, ids.value[..i])
        {
          assert ids.value[..i + 1][..i] == ids.value[..i];
          if ids.value[i] in t {
            rows := rows + [t[ids.value[i]]];
          }
        }
        assert ids.value[..|ids.value|] == ids.value;
        rows := Keep(rows, Chooses(selection, columns, platform));
        r := Ok(rows);
      } else {
        var rows := CollectChosen(t, selection, columns, platform);
        r := Ok(rows);
      }
    }

    /** SELECT with ORDER BY, OFFSET and LIMIT, before projection: a slice of the selected rows in their order. */
    method ExecuteQuery(db: Str, table: Str, selection: Option<Expr>, items: seq<SortItem>, offset: nat,
        limit: Option<nat>, platform: Platform)
      returns (r: Result<seq<Row>, Error>)
      ensures match GetTable(catalog.View(), db, table)
              case Err(x) => r == Err(x)
              case Ok(def) =>
                var selected := SelectRows(storage.View(), table, selection, TableIndexes(catalog.View(), db, table), def.columns, platform);
                && r.Ok?
                && exists sorted ::
                     && Rearranged(selected, sorted)
                     && (Sortable(selected, items, def.columns, platform) ==> SortedBy(selected, items, def.columns, platform, sorted))
                     && (KeysPlain(selected, items, def.columns) ==> ValueSorted(selected, items, def.columns, sorted))
                     && r.value == Slice(sorted, offset, limit)
    {
      var definitions := Definitions(catalog.databases, catalog.sequences);
      var found := GetTable(definitions, db, table);
      if found.Err? {
        return Err(found.error);
      }
      var rows := SelectFrom(db, table, selection, platform);
      var sorted := SortRows(rows.value, items, found.value.columns, platform);
      var page := Page(sorted, offset, limit);
      r := Ok(page);
    }

    // ---- Rebuilding the indexes --------------------------------------------------------------------------------

    /** `order` is the order in which the tables of the database are met. */
    method RebuildIndexes(order: seq<Str>)
      requires SRRDB in catalog.databases
      modifies storage
      ensures storage.View() == old(storage.View().(indexData := RebuiltTables(catalog.databases[SRRDB], storage.View(), order)))
    {
      var d := catalog.databases[SRRDB];
      ghost var start := storage.View();
      for i := 0 to |order|
        invariant storage.View() == start.(indexData := RebuiltTables(d, start, order[..i]))
      {
        assert order[..i + 1][..i] == order[..i];
        var tn := order[i];
        if tn in d.tables && tn in d.indexes {
          var rows := GetRows(Store(storage.tables, storage.nextIds, storage.indexData), tn);
          assert rows == GetRows(start, tn);
          RebuildTable(Lower(tn), d.indexes[tn], d.tables[tn].columns, rows);
        }
      }
      assert order[..|order|] == order;
    }

    method RebuildTable(tn: Str, defs: seq<IndexDef>, columns: seq<Column>, rows: seq<Row>)
      modifies storage
      ensures storage.View() == old(storage.View().(indexData := RebuiltTable(storage.indexData, tn, defs, Builder(columns, rows))))
    {
      for i := 0 to |defs|
        invariant storage.tables == old(storage.tables) && storage.nextIds == old(storage.nextIds)
        invariant storage.indexData == RebuiltTable(old(storage.indexData), tn, defs[..i], Builder(columns, rows))
      {
        assert defs[..i + 1][..i] == defs[..i];
        var data := new IndexData(defs[i].indexType);
        for k := 0 to |rows|
          invariant fresh(data)
          invariant storage.tables == old(storage.tables) && storage.nextIds == old(storage.nextIds)
          invariant storage.indexData == RebuiltTable(old(storage.indexData), tn, defs[..i], Builder(columns, rows))
          invariant data.View() == BuildIndex(defs[i], columns, rows[..k])
        {
          assert rows[..k + 1][..k] == rows[..k];
          data.Insert(KeyOf(defs[i], columns, rows[k].values), rows[k].id);
        }
        assert rows[..|rows|] == rows;
        storage.indexData := storage.indexData[EntryName(tn, defs[i].name) := Postings(data.kind, data.lists)];
      }
      assert defs[..|defs|] == defs;
    }
  }
}
