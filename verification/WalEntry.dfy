/** The log's entries and `apply_entry` of `src/engine/wal.rs`. */
module WalEntries {
  import opened Prelude
  import opened Types
  import opened Index
  import opened Storage
  import opened Catalog

  datatype WalEntry =
    | CreateTable(tableName: Str, columns: seq<Column>)
    | DropTable(tableName: Str)
    | InsertRows(tableName: Str, rows: seq<Row>)
    | TableSnapshot(tableName: Str, rows: seq<Row>)
    | CreateIndex(dbName: Str, def: IndexDef)
    | DropIndex(dbName: Str, indexName: Str, tableName: Str)
    | Checkpoint

  /** What the log is replayed into. */
  datatype Image = Image(defs: Definitions, store: Store)

  const FreshImage := Image(FreshDefinitions, EmptyStore)

  function Emptied(s: Store, name: Str): Store {
    if Lower(name) in s.tables then s.(tables := s.tables[Lower(name) := map[]]) else s
  }

  function Restored(s: Store, name: Str, rows: seq<Row>): Store {
    if rows == [] then Emptied(s, name) else Inserted(Emptied(s, name), name, rows)
  }

  function Replaced(i: Image, r: Result<Definitions, Error>): Image {
    match r
    case Ok(c) => i.(defs := c)
    case Err(_) => i
  }

  /** The effect of one entry; definitions always go to database "srrdb" for tables. */
  function Apply(i: Image, e: WalEntry): Image {
    match e
    case CreateTable(name, columns) => Replaced(i, WithTable(i.defs, SRRDB, name, columns))
    case DropTable(name) =>
      (match WithoutTable(i.defs, SRRDB, name)
       case Ok(c) => Image(c, Cleared(i.store, name))
       case Err(_) => i)
    case InsertRows(name, rows) => i.(store := Inserted(i.store, name, rows))
    case TableSnapshot(name, rows) => i.(store := Restored(i.store, name, rows))
    case CreateIndex(db, def) => Replaced(i, WithIndex(i.defs, db, def))
    case DropIndex(db, name, table) => Replaced(i, WithoutIndex(i.defs, db, name, table))
    case Checkpoint => i
  }

  /** Whether `apply_entry` reports success, which only affects the count of replayed entries. */
  predicate Succeeds(i: Image, e: WalEntry) {
    match e
    case CreateTable(name, columns) => WithTable(i.defs, SRRDB, name, columns).Ok?
    case DropTable(name) => WithoutTable(i.defs, SRRDB, name).Ok?
    case CreateIndex(db, def) => WithIndex(i.defs, db, def).Ok?
    case DropIndex(db, name, table) => WithoutIndex(i.defs, db, name, table).Ok?
    case _ => true
  }

  function ApplyAll(i: Image, entries: seq<WalEntry>): Image {
    if entries == [] then i else Apply(ApplyAll(i, entries[..|entries| - 1]), entries[|entries| - 1])
  }

  lemma ApplyAllAppend(i: Image, entries: seq<WalEntry>, e: WalEntry)
    ensures ApplyAll(i, entries + [e]) == Apply(ApplyAll(i, entries), e)
  {
    assert (entries + [e])[..|entries|] == entries;
  }

  method ApplyEntry(catalog: Catalog, storage: Storage, e: WalEntry) returns (ok: bool)
    modifies catalog, storage
    ensures Image(catalog.View(), storage.View()) == old(Apply(Image(catalog.View(), storage.View()), e))
    ensures ok == old(Succeeds(Image(catalog.View(), storage.View()), e))
  {
    ok := true;
    match e {
      case CreateTable(name, columns) =>
        var r := catalog.CreateTable(SRRDB, name, columns);
        ok := r == None;
      case DropTable(name) =>
        var r := catalog.DropTable(SRRDB, name);
        ok := r == None;
        if ok {
          storage.ClearTable(name);
        }
      case InsertRows(name, rows) =>
        var _ := storage.InsertRows(name, rows);
      case TableSnapshot(name, rows) =>
        if Lower(name) in storage.tables {
          storage.tables := storage.tables[Lower(name) := map[]];
        }
        if rows != [] {
          var _ := storage.InsertRows(name, rows);
        }
      case CreateIndex(db, def) =>
        var r := catalog.CreateIndex(db, def);
        ok := r == None;
      case DropIndex(db, name, table) =>
        var r := catalog.DropIndex(db, name, table);
        ok := r == None;
      case Checkpoint =>
    }
  }

  // ---- Invariants of replay ----------------------------------------------------------

  lemma RestoredKeepsWf(s: Store, name: Str, rows: seq<Row>)
    requires WfStore(s)
    ensures WfStore(Restored(s, name, rows))
  {
    if rows != [] {
      InsertedKeepsWf(Emptied(s, name), name, rows);
    }
  }

  lemma ApplyKeepsWf(i: Image, e: WalEntry)
    requires WfStore(i.store)
    ensures WfStore(Apply(i, e).store)
  {
    match e {
      case DropTable(name) => ClearedKeepsWf(i.store, name);
      case InsertRows(name, rows) => InsertedKeepsWf(i.store, name, rows);
      case TableSnapshot(name, rows) => RestoredKeepsWf(i.store, name, rows);
      case _ =>
    }
  }

  /** Replay keeps every row under its own id and below the counter, whatever the log holds. */
  lemma {:induction false} ReplayKeepsWf(i: Image, entries: seq<WalEntry>)
    requires WfStore(i.store)
    ensures WfStore(ApplyAll(i, entries).store)
  {
    if entries != [] {
      var before := entries[..|entries| - 1];
      ReplayKeepsWf(i, before);
      ApplyKeepsWf(ApplyAll(i, before), entries[|entries| - 1]);
    }
  }

  // ---- Snapshot absorption --------------------------------------------------------------

  predicate Touches(e: WalEntry, tn: Str) {
    match e
    case DropTable(name) => Lower(name) == tn
    case InsertRows(name, _) => Lower(name) == tn
    case TableSnapshot(name, _) => Lower(name) == tn
    case _ => false
  }

  ghost predicate HoldsExactly(t: Table, rows: seq<Row>) {
    && (forall i :: 0 <= i < |rows| ==> rows[i].id in t && t[rows[i].id] == rows[i])
    && (forall id :: id in t ==> exists i :: 0 <= i < |rows| && rows[i].id == id)
  }

  lemma UntouchedTable(i: Image, e: WalEntry, name: Str)
    requires !Touches(e, Lower(name))
    ensures TableOf(Apply(i, e).store, name) == TableOf(i.store, name)
  {
  }

  lemma SnapshotFixesTable(s: Store, name: Str, rows: seq<Row>)
    requires BringIds(rows)
    ensures HoldsExactly(TableOf(Restored(s, name, rows), name), rows)
  {
    var next := NextOf(Emptied(s, name), name);
    if rows != [] {
      assert TableOf(Emptied(s, name), name) == map[];
      forall i | 0 <= i < |rows| ensures rows[i].id in PlaceAll(map[], next, rows).table && PlaceAll(map[], next, rows).table[rows[i].id] == rows[i] {
        ExplicitRows(map[], next, rows, i);
      }
      forall id | id in PlaceAll(map[], next, rows).table ensures exists i :: 0 <= i < |rows| && rows[i].id == id {
        if forall i :: 0 <= i < |rows| ==> rows[i].id != id {
          ExplicitElsewhere(map[], next, rows, id);
        }
      }
    }
  }

  /** After the last entry about a table is a snapshot, the table is that snapshot, whatever came before. */
  lemma {:induction false} SnapshotAbsorbs(base: Image, entries: seq<WalEntry>, at: nat)
    requires at < |entries| && entries[at].TableSnapshot? && BringIds(entries[at].rows)
    requires forall j :: at < j < |entries| ==> !Touches(entries[j], Lower(entries[at].tableName))
    ensures HoldsExactly(TableOf(ApplyAll(base, entries).store, entries[at].tableName), entries[at].rows)
  {
    var n := |entries| - 1;
    var before := entries[..n];
    if at == n {
      SnapshotFixesTable(ApplyAll(base, before).store, entries[at].tableName, entries[at].rows);
    } else {
      SnapshotAbsorbs(base, before, at);
      UntouchedTable(ApplyAll(base, before), entries[n], entries[at].tableName);
    }
  }

  lemma HoldsExactlyUnique(t: Table, u: Table, rows: seq<Row>)
    requires HoldsExactly(t, rows) && HoldsExactly(u, rows)
    ensures t == u
  {
    assert t.Keys == u.Keys;
  }

  /** So replaying the same log a second time leaves that table as the first replay left it. */
  lemma SecondReplayChangesNothing(base: Image, entries: seq<WalEntry>, at: nat)
    requires at < |entries| && entries[at].TableSnapshot? && BringIds(entries[at].rows)
    requires forall j :: at < j < |entries| ==> !Touches(entries[j], Lower(entries[at].tableName))
    ensures TableOf(ApplyAll(ApplyAll(base, entries), entries).store, entries[at].tableName)
         == TableOf(ApplyAll(base, entries).store, entries[at].tableName)
  {
    SnapshotAbsorbs(base, entries, at);
    SnapshotAbsorbs(ApplyAll(base, entries), entries, at);
    HoldsExactlyUnique(TableOf(ApplyAll(base, entries).store, entries[at].tableName),
                       TableOf(ApplyAll(ApplyAll(base, entries), entries).store, entries[at].tableName),
                       entries[at].rows);
  }
}
