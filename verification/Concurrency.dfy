/**
  * Any number of threads running INSERT, UPDATE, DELETE and SELECT over fixed tables and indexes. Each critical section
  * on the storage mutex is one step; an INSERT is two steps, and other threads' steps may fall between them.
  */
module Concurrency {
  import opened Prelude
  import opened Types
  import opened Index
  import opened Storage
  import opened Catalog
  import opened Maintenance
  import opened Where
  import opened Engine
  import opened Recovery
  import opened Sections
  import opened Coherence
  import opened Select

  /** An INSERT whose rows are stored and not yet filed. */
  datatype Halfway = Halfway(table: Str, ids: seq<nat>)

  datatype System = System(store: Store, halfway: map<nat, Halfway>)

  datatype Action =
    | StoreAction(thread: nat, table: Str, rows: seq<Row>)
    | IndexAction(thread: nat)
    | DeleteAction(thread: nat, table: Str, selection: Option<Expr>)
    | UpdateAction(thread: nat, table: Str, selection: Option<Expr>, targets: seq<Target>)

  predicate Enabled(d: DatabaseDef, sys: System, a: Action) {
    match a
    case StoreAction(thread, table, rows) =>
      thread !in sys.halfway && Lower(table) in d.tables && forall r :: r in rows ==> r.id == 0
    case IndexAction(thread) => thread in sys.halfway
    case DeleteAction(thread, table, _) => thread !in sys.halfway && Lower(table) in d.tables && Lower(table) in sys.store.tables
    case UpdateAction(thread, table, _, _) => thread !in sys.halfway && Lower(table) in d.tables && Lower(table) in sys.store.tables
  }

  function IndexesOf(d: DatabaseDef, table: Str): seq<IndexDef> {
    if Lower(table) in d.indexes then d.indexes[Lower(table)] else []
  }

  function ColumnsOf(d: DatabaseDef, table: Str): seq<Column> {
    if Lower(table) in d.tables then d.tables[Lower(table)].columns else []
  }

  function Next(d: DatabaseDef, sys: System, a: Action, platform: Platform): System
    requires Enabled(d, sys, a)
  {
    var s := sys.store;
    match a
    case StoreAction(thread, table, rows) =>
      System(StoreRows(s, table, rows), sys.halfway[thread := Halfway(table, InsertedIds(s, table, rows))])
    case IndexAction(thread) =>
      var h := sys.halfway[thread];
      System(IndexRows(s, h.table, h.ids, IndexesOf(d, h.table), ColumnsOf(d, h.table)), sys.halfway - {thread})
    case DeleteAction(_, table, selection) =>
      sys.(store := DeleteRows(s, table, selection, IndexesOf(d, table), ColumnsOf(d, table), platform))
    case UpdateAction(_, table, selection, targets) =>
      sys.(store := UpdateRows(s, table, selection, targets, IndexesOf(d, table), ColumnsOf(d, table), platform))
  }

  // ---- The invariant ---------------------------------------------------------------------------------------

  /** Row `x` of table `tn` belongs to an INSERT that is halfway. */
  ghost predicate IsPending(halfway: map<nat, Halfway>, tn: Str, x: nat) {
    exists thread :: thread in halfway && Lower(halfway[thread].table) == tn && x in halfway[thread].ids
  }

  /** A live id is filed under its current key only. */
  ghost predicate KeysCurrent(data: Entries, entry: Str, def: IndexDef, columns: seq<Column>, t: Table) {
    forall key, x :: x in Filed(data, entry, key) && x in t ==> KeyOf(def, columns, t[x].values) == key
  }

  /** Every live row that is not pending is filed under its current key. */
  ghost predicate RowsFiled(data: Entries, entry: Str, def: IndexDef, columns: seq<Column>, t: Table,
      halfway: map<nat, Halfway>, tn: Str) {
    forall x :: x in t && !IsPending(halfway, tn, x) ==> x in Filed(data, entry, KeyOf(def, columns, t[x].values))
  }

  /** Only ids already given out are filed, so a dangling id is never taken by a new row. */
  ghost predicate IdsKnown(data: Entries, entry: Str, next: nat) {
    forall key, x :: x in Filed(data, entry, key) ==> x < next
  }

  ghost predicate IndexSafe(sys: System, tn: Str, def: IndexDef, columns: seq<Column>) {
    var data, entry, t := sys.store.indexData, EntryName(tn, def.name), TableOf(sys.store, tn);
    && KeysCurrent(data, entry, def, columns, t)
    && RowsFiled(data, entry, def, columns, t, sys.halfway, tn)
    && IdsKnown(data, entry, NextOf(sys.store, tn))
  }

  ghost predicate PendingKnown(d: DatabaseDef, sys: System) {
    forall thread :: thread in sys.halfway ==>
                       && Lower(sys.halfway[thread].table) in d.tables
                       && forall x :: x in sys.halfway[thread].ids ==> x < NextOf(sys.store, sys.halfway[thread].table)
  }

  ghost predicate Inv(d: DatabaseDef, sys: System) {
    && WfStore(sys.store)
    && PendingKnown(d, sys)
    && forall tn, i :: tn in d.tables && tn in d.indexes && 0 <= i < |d.indexes[tn]| ==>
                         IndexSafe(sys, tn, d.indexes[tn][i], d.tables[tn].columns)
  }

  // ---- One index, one section --------------------------------------------------------------------------------

  lemma StoreKeepsIndex(sys: System, after: System, tn: Str, def: IndexDef, columns: seq<Column>, thread: nat,
      table: Str, rows: seq<Row>)
    requires WfStore(sys.store) && IndexSafe(sys, tn, def, columns)
    requires thread !in sys.halfway && Lower(table) == tn == Lower(tn)
    requires forall r :: r in rows ==> r.id == 0
    requires after == System(StoreRows(sys.store, table, rows), sys.halfway[thread := Halfway(table, InsertedIds(sys.store, table, rows))])
    ensures IndexSafe(after, tn, def, columns)
  {
    var s, ids := sys.store, InsertedIds(sys.store, table, rows);
    StoredExtends(s, table, rows);
    FreshRows(TableOf(s, table), NextOf(s, table), rows);
    var entry, t, t' := EntryName(tn, def.name), TableOf(s, tn), TableOf(after.store, tn);
    forall key: Key, x: nat | x in Filed(s.indexData, entry, key) && x in t' ensures x in t && t'[x] == t[x] {
      assert x < NextOf(s, tn);
    }
    forall x: nat | IsPending(sys.halfway, tn, x) ensures IsPending(after.halfway, tn, x) {
      var th :| th in sys.halfway && Lower(sys.halfway[th].table) == tn && x in sys.halfway[th].ids;
      assert th in after.halfway && after.halfway[th] == sys.halfway[th];
    }
    forall x: nat | x in t' && !IsPending(after.halfway, tn, x) ensures x in t && !IsPending(sys.halfway, tn, x) {
      assert thread in after.halfway && after.halfway[thread].ids == ids;
      assert x !in ids;
    }
  }

  lemma StillPending(halfway: map<nat, Halfway>, thread: nat, tn: Str, x: nat)
    requires IsPending(halfway, tn, x) && thread in halfway && x !in halfway[thread].ids
    ensures IsPending(halfway - {thread}, tn, x)
  {
    var th :| th in halfway && Lower(halfway[th].table) == tn && x in halfway[th].ids;
    assert th in halfway - {thread};
  }

  lemma IndexKeepsIndex(sys: System, after: System, tn: Str, defs: seq<IndexDef>, columns: seq<Column>, i: nat,
      thread: nat)
    requires WfStore(sys.store) && DistinctNames(defs) && i < |defs| && IndexSafe(sys, tn, defs[i], columns)
    requires thread in sys.halfway && Lower(sys.halfway[thread].table) == tn == Lower(tn)
    requires forall x :: x in sys.halfway[thread].ids ==> x < NextOf(sys.store, tn)
    requires after == System(IndexRows(sys.store, sys.halfway[thread].table, sys.halfway[thread].ids, defs, columns), sys.halfway - {thread})
    ensures IndexSafe(after, tn, defs[i], columns)
  {
    var s, table, ids := sys.store, sys.halfway[thread].table, sys.halfway[thread].ids;
    IndexRowsFiles(s, table, ids, defs, columns, i);
    var entry, t, data' := EntryName(tn, defs[i].name), TableOf(s, tn), after.store.indexData;
    assert TableOf(s, table) == t;
    assert Gained(s.indexData, data', entry, s, table, ids, defs[i], columns);
    forall key: Key, x: nat | x in Filed(data', entry, key) && x in t ensures KeyOf(defs[i], columns, t[x].values) == key {
      assert FoundRow(s, table, x).values == t[x].values;
    }
    forall key: Key, x: nat | x in Filed(data', entry, key) ensures x < NextOf(s, tn) {
      assert x in Filed(s.indexData, entry, key) || x in ids;
    }
    forall x: nat | x in t && !IsPending(after.halfway, tn, x) ensures x in Filed(data', entry, KeyOf(defs[i], columns, t[x].values)) {
      assert FoundRow(s, table, x).values == t[x].values;
      if IsPending(sys.halfway, tn, x) && x !in ids {
        StillPending(sys.halfway, thread, tn, x);
      }
    }
  }

  lemma DeleteKeepsSafe(sys: System, after: System, tn: Str, defs: seq<IndexDef>, columns: seq<Column>, i: nat,
      table: Str, selection: Option<Expr>, platform: Platform)
    requires WfStore(sys.store) && DistinctNames(defs) && i < |defs| && IndexSafe(sys, tn, defs[i], columns)
    requires Lower(table) == tn == Lower(tn) && tn in sys.store.tables
    requires after == sys.(store := DeleteRows(sys.store, table, selection, defs, columns, platform))
    ensures IndexSafe(after, tn, defs[i], columns)
  {
    var s, entry := sys.store, EntryName(tn, defs[i].name);
    DeleteUnfiles(s, table, selection, defs, columns, platform, i);
    assert Lost(s.indexData, after.store.indexData, entry, TableOf(s, table), selection, columns, platform, defs[i]);
    assert TableOf(after.store, tn) == Remaining(TableOf(s, tn), selection, columns, platform);
  }

  lemma MovedIsSafe(before: Entries, after: Entries, entry: Str, t: Table, selection: Option<Expr>,
      columns: seq<Column>, targets: seq<Target>, platform: Platform, def: IndexDef, halfway: map<nat, Halfway>,
      tn: Str, next: nat)
    requires Moved(before, after, entry, t, selection, columns, targets, platform, def)
    requires KeysCurrent(before, entry, def, columns, t) && RowsFiled(before, entry, def, columns, t, halfway, tn) && IdsKnown(before, entry, next)
    requires WfTable(t, next)
    ensures var t' := Updated(t, selection, columns, targets, platform);
            && KeysCurrent(after, entry, def, columns, t')
            && RowsFiled(after, entry, def, columns, t', halfway, tn)
            && IdsKnown(after, entry, next)
  {
    var t' := Updated(t, selection, columns, targets, platform);
    forall key: Key, x: nat | x in Filed(after, entry, key) && x in t' ensures KeyOf(def, columns, t'[x].values) == key {
      if !NewHit(t, selection, columns, targets, platform, def, key, x) {
        assert KeyOf(def, columns, t[x].values) == key;
      }
    }
    forall x: nat | x in t' && !IsPending(halfway, tn, x) ensures x in Filed(after, entry, KeyOf(def, columns, t'[x].values)) {
      var key := KeyOf(def, columns, t'[x].values);
      if Selected(selection, columns, t[x].values, platform) {
        assert NewHit(t, selection, columns, targets, platform, def, key, x);
      } else {
        assert !Hit(t, selection, columns, platform, def, key, x);
      }
    }
  }

  lemma UpdateKeepsSafe(sys: System, after: System, tn: Str, defs: seq<IndexDef>, columns: seq<Column>, i: nat,
      table: Str, selection: Option<Expr>, targets: seq<Target>, platform: Platform)
    requires WfStore(sys.store) && DistinctNames(defs) && i < |defs| && IndexSafe(sys, tn, defs[i], columns)
    requires Lower(table) == tn == Lower(tn) && tn in sys.store.tables
    requires after == sys.(store := UpdateRows(sys.store, table, selection, targets, defs, columns, platform))
    ensures IndexSafe(after, tn, defs[i], columns)
  {
    var s, entry := sys.store, EntryName(tn, defs[i].name);
    UpdateMoves(s, table, selection, targets, defs, columns, platform, i);
    MovedIsSafe(s.indexData, after.store.indexData, entry, TableOf(s, tn), selection, columns, targets, platform, defs[i], sys.halfway, tn, NextOf(s, tn));
    assert TableOf(after.store, tn) == Updated(TableOf(s, tn), selection, columns, targets, platform);
  }

  /** An index of another table is as safe as before. */
  lemma OtherTableSafe(sys: System, after: System, tn: Str, def: IndexDef, columns: seq<Column>)
    requires IndexSafe(sys, tn, def, columns)
    requires SameAt(sys.store.indexData, after.store.indexData, EntryName(tn, def.name))
    requires TableOf(after.store, tn) == TableOf(sys.store, tn) && NextOf(after.store, tn) == NextOf(sys.store, tn)
    requires forall x :: IsPending(sys.halfway, tn, x) ==> IsPending(after.halfway, tn, x)
    ensures IndexSafe(after, tn, def, columns)
  {
    var entry := EntryName(tn, def.name);
    forall key: Key ensures Filed(after.store.indexData, entry, key) == Filed(sys.store.indexData, entry, key) { }
  }

  // ---- One step --------------------------------------------------------------------------------------------------

  function TableTouched(sys: System, a: Action): Str
    requires a.IndexAction? ==> a.thread in sys.halfway
  {
    Lower(if a.IndexAction? then sys.halfway[a.thread].table else a.table)
  }

  lemma StepOnIndex(d: DatabaseDef, sys: System, a: Action, platform: Platform, tn: Str, i: nat)
    requires WellNamed(d) && Inv(d, sys) && Enabled(d, sys, a) && tn == TableTouched(sys, a)
    requires tn in d.tables && tn in d.indexes && i < |d.indexes[tn]|
    ensures IndexSafe(Next(d, sys, a, platform), tn, d.indexes[tn][i], d.tables[tn].columns)
  {
    var after, defs, columns := Next(d, sys, a, platform), d.indexes[tn], d.tables[tn].columns;
    assert IndexSafe(sys, tn, defs[i], columns);
    match a {
      case StoreAction(thread, table, rows) =>
        StoreKeepsIndex(sys, after, tn, defs[i], columns, thread, table, rows);
      case IndexAction(thread) =>
        IndexKeepsIndex(sys, after, tn, defs, columns, i, thread);
      case DeleteAction(_, table, selection) =>
        DeleteKeepsSafe(sys, after, tn, defs, columns, i, table, selection, platform);
      case UpdateAction(_, table, selection, targets) =>
        UpdateKeepsSafe(sys, after, tn, defs, columns, i, table, selection, targets, platform);
    }
  }

  /** Only the entries, the rows and the counter of one table differ, and the counter has not gone back. */
  ghost predicate OneTable(s: Store, after: Store, tn: Str, defs: seq<IndexDef>) {
    && OnlyTable(s.indexData, after.indexData, tn, defs)
    && (forall u :: u != tn ==> (u in s.tables <==> u in after.tables) && (u in s.nextIds <==> u in after.nextIds))
    && (forall u :: u != tn && u in s.tables ==> after.tables[u] == s.tables[u])
    && (forall u :: u != tn && u in s.nextIds ==> after.nextIds[u] == s.nextIds[u])
    && NextOf(s, tn) <= NextOf(after, tn)
    && WfStore(after)
  }

  lemma OtherTable(s: Store, after: Store, tn: Str, defs: seq<IndexDef>, u: Str)
    requires OneTable(s, after, tn, defs) && Lower(tn) == tn
    ensures Lower(u) != tn ==> TableOf(after, u) == TableOf(s, u) && NextOf(after, u) == NextOf(s, u)
    ensures NextOf(s, u) <= NextOf(after, u)
  {
  }

  lemma StoreTouchesOneTable(s: Store, table: Str, rows: seq<Row>, defs: seq<IndexDef>)
    requires WfStore(s)
    ensures OneTable(s, StoreRows(s, table, rows), Lower(table), defs)
  {
    LowerIdempotent(table);
    InsertedKeepsWf(s, table, rows);
    PlaceAllKeepsWf(TableOf(s, table), NextOf(s, table), rows);
  }

  lemma RowsTouchOneTable(s: Store, after: Store, table: Str, t: Table, defs: seq<IndexDef>)
    requires WfStore(s) && Lower(table) in s.tables
    requires after.tables == s.tables[Lower(table) := t] && after.nextIds == s.nextIds
    requires WfTable(t, s.nextIds[Lower(table)])
    requires OnlyTable(s.indexData, after.indexData, Lower(table), defs)
    ensures OneTable(s, after, Lower(table), defs)
  {
  }

  /** A step touches the entries, the rows and the counter of one table only. */
  lemma StepTouchesOneTable(d: DatabaseDef, sys: System, a: Action, platform: Platform)
    requires WellNamed(d) && Inv(d, sys) && Enabled(d, sys, a)
    ensures TableTouched(sys, a) in d.tables
    ensures OneTable(sys.store, Next(d, sys, a, platform).store, TableTouched(sys, a), IndexesOf(d, TableTouched(sys, a)))
  {
    var s, tn, after := sys.store, TableTouched(sys, a), Next(d, sys, a, platform).store;
    assert tn in d.tables && Lower(tn) == tn;
    var defs := IndexesOf(d, tn);
    match a {
      case StoreAction(thread, table, rows) =>
        StoreTouchesOneTable(s, table, rows, defs);
      case IndexAction(thread) =>
        var h := sys.halfway[thread];
        IndexRowsOnly(s, h.table, h.ids, IndexesOf(d, h.table), ColumnsOf(d, h.table));
      case DeleteAction(_, table, selection) =>
        DeleteRowsOnly(s, table, selection, IndexesOf(d, table), ColumnsOf(d, table), platform);
        var t := Remaining(TableOf(s, table), selection, ColumnsOf(d, table), platform);
        assert WfTable(t, s.nextIds[tn]);
        RowsTouchOneTable(s, after, table, t, defs);
      case UpdateAction(_, table, selection, targets) =>
        UpdateRowsOnly(s, table, selection, targets, IndexesOf(d, table), ColumnsOf(d, table), platform);
        UpdatedKeepsWf(TableOf(s, table), selection, ColumnsOf(d, table), targets, platform, s.nextIds[tn]);
        RowsTouchOneTable(s, after, table, Updated(TableOf(s, table), selection, ColumnsOf(d, table), targets, platform), defs);
    }
  }

  lemma OthersStayPending(d: DatabaseDef, sys: System, a: Action, platform: Platform, u: Str, x: nat)
    requires Enabled(d, sys, a) && u != TableTouched(sys, a) && IsPending(sys.halfway, u, x)
    ensures IsPending(Next(d, sys, a, platform).halfway, u, x)
  {
    var th :| th in sys.halfway && Lower(sys.halfway[th].table) == u && x in sys.halfway[th].ids;
    assert th in Next(d, sys, a, platform).halfway && Next(d, sys, a, platform).halfway[th] == sys.halfway[th];
  }

  lemma StepKeepsPendingKnown(d: DatabaseDef, sys: System, a: Action, platform: Platform)
    requires WellNamed(d) && Inv(d, sys) && Enabled(d, sys, a)
    ensures PendingKnown(d, Next(d, sys, a, platform))
  {
    var after := Next(d, sys, a, platform);
    StepTouchesOneTable(d, sys, a, platform);
    forall u: Str ensures NextOf(sys.store, u) <= NextOf(after.store, u) {
      OtherTable(sys.store, after.store, TableTouched(sys, a), IndexesOf(d, TableTouched(sys, a)), u);
    }
    if a.StoreAction? {
      FreshRows(TableOf(sys.store, a.table), NextOf(sys.store, a.table), a.rows);
    }
  }

  /** Every step keeps the invariant. */
  lemma StepKeepsInv(d: DatabaseDef, sys: System, a: Action, platform: Platform)
    requires WellNamed(d) && Inv(d, sys) && Enabled(d, sys, a)
    ensures Inv(d, Next(d, sys, a, platform))
  {
    var after := Next(d, sys, a, platform);
    StepTouchesOneTable(d, sys, a, platform);
    StepKeepsPendingKnown(d, sys, a, platform);
    forall tn, i | tn in d.tables && tn in d.indexes && 0 <= i < |d.indexes[tn]|
      ensures IndexSafe(after, tn, d.indexes[tn][i], d.tables[tn].columns)
    {
      if tn == TableTouched(sys, a) {
        StepOnIndex(d, sys, a, platform, tn, i);
      } else {
        forall x: nat | IsPending(sys.halfway, tn, x) ensures IsPending(after.halfway, tn, x) {
          OthersStayPending(d, sys, a, platform, tn, x);
        }
        assert IndexSafe(sys, tn, d.indexes[tn][i], d.tables[tn].columns);
        OtherTable(sys.store, after.store, TableTouched(sys, a), IndexesOf(d, TableTouched(sys, a)), tn);
        OtherEntrySame(d, sys.store.indexData, after.store.indexData, TableTouched(sys, a), tn, i);
        OtherTableSafe(sys, after, tn, d.indexes[tn][i], d.tables[tn].columns);
      }
    }
  }

  // ---- Whole runs ----------------------------------------------------------------------------------------------------

  ghost predicate Schedule(d: DatabaseDef, from: System, actions: seq<Action>, platform: Platform)
    decreases |actions|
  {
    actions == [] || (Enabled(d, from, actions[0]) && Schedule(d, Next(d, from, actions[0], platform), actions[1..], platform))
  }

  ghost function After(d: DatabaseDef, from: System, actions: seq<Action>, platform: Platform): System
    requires Schedule(d, from, actions, platform)
    decreases |actions|
  {
    if actions == [] then from else After(d, Next(d, from, actions[0], platform), actions[1..], platform)
  }

  /** Under every interleaving, from indexes that are in step, every index stays safe. */
  lemma {:induction false} EveryScheduleIsSafe(d: DatabaseDef, from: System, actions: seq<Action>, platform: Platform)
    requires WellNamed(d) && Inv(d, from) && Schedule(d, from, actions, platform)
    ensures Inv(d, After(d, from, actions, platform))
    decreases |actions|
  {
    if actions != [] {
      StepKeepsInv(d, from, actions[0], platform);
      EveryScheduleIsSafe(d, Next(d, from, actions[0], platform), actions[1..], platform);
    }
  }

  lemma InStepStartsSafe(d: DatabaseDef, s: Store)
    requires AllInStep(d, s)
    ensures WellNamed(d) && Inv(d, System(s, map[]))
  {
    InStepIsWellNamed(d, s);
    forall tn, i | tn in d.tables && tn in d.indexes && 0 <= i < |d.indexes[tn]|
      ensures IndexSafe(System(s, map[]), tn, d.indexes[tn][i], d.tables[tn].columns)
    {
      assert TableInStep(d, s, tn);
      TableIsWf(s, tn);
      var entry := EntryName(tn, d.indexes[tn][i].name);
      assert InStep(s.indexData, entry, d.indexes[tn][i], d.tables[tn].columns, TableOf(s, tn));
      forall key: Key, x: nat | x in Filed(s.indexData, entry, key) ensures x < NextOf(s, tn) {
        assert x in TableOf(s, tn);
      }
    }
  }

  ghost function SchemaAfter(db: Str, statements: seq<Statement>, platform: Platform): DatabaseDef {
    var e := Run(db, statements, platform);
    if SRRDB in e.defs.databases then e.defs.databases[SRRDB] else DatabaseDef(SRRDB, map[], map[])
  }

  /** Any concurrent phase after any sequential run that keeps its indexes in step. */
  lemma ConcurrentPhaseIsSafe(db: Str, statements: seq<Statement>, platform: Platform, actions: seq<Action>)
    requires Tidy(db, statements, platform)
    requires Schedule(SchemaAfter(db, statements, platform), System(Run(db, statements, platform).store, map[]), actions, platform)
    ensures Inv(SchemaAfter(db, statements, platform),
                After(SchemaAfter(db, statements, platform), System(Run(db, statements, platform).store, map[]), actions, platform))
  {
    RunInStep(db, statements, platform);
    var d, s := SchemaAfter(db, statements, platform), Run(db, statements, platform).store;
    InStepStartsSafe(d, s);
    EveryScheduleIsSafe(d, System(s, map[]), actions, platform);
  }

  lemma DeadRowStep(d: DatabaseDef, sys: System, a: Action, platform: Platform, u: Str, x: nat)
    requires WellNamed(d) && Inv(d, sys) && Enabled(d, sys, a)
    requires x < NextOf(sys.store, u) && x !in TableOf(sys.store, u)
    ensures var after := Next(d, sys, a, platform).store;
            x < NextOf(after, u) && x !in TableOf(after, u)
  {
    StepTouchesOneTable(d, sys, a, platform);
    OtherTable(sys.store, Next(d, sys, a, platform).store, TableTouched(sys, a), IndexesOf(d, TableTouched(sys, a)), u);
    if Lower(u) == TableTouched(sys, a) && a.StoreAction? {
      FreshRows(TableOf(sys.store, a.table), NextOf(sys.store, a.table), a.rows);
    }
  }

  /** An id that was given out and has no row never gets one again. */
  lemma {:induction false} DeadRowsStayDead(d: DatabaseDef, from: System, actions: seq<Action>, platform: Platform,
      u: Str, x: nat)
    requires WellNamed(d) && Inv(d, from) && Schedule(d, from, actions, platform)
    requires x < NextOf(from.store, u) && x !in TableOf(from.store, u)
    ensures x !in TableOf(After(d, from, actions, platform).store, u)
    decreases |actions|
  {
    if actions != [] {
      StepKeepsInv(d, from, actions[0], platform);
      DeadRowStep(d, from, actions[0], platform, u, x);
      DeadRowsStayDead(d, Next(d, from, actions[0], platform), actions[1..], platform, u, x);
    }
  }

  // ---- SELECT in the middle ---------------------------------------------------------------------------------------------

  /**
    * A SELECT at any moment of any schedule returns only rows the scan would, and, when the literal matches only
    * identical values, misses only rows whose INSERT is halfway. It may return a row more than once.
    */
  lemma SelectUnderInterleaving(d: DatabaseDef, from: System, actions: seq<Action>, platform: Platform, table: Str,
      selection: Option<Expr>, r: Row)
    requires WellNamed(d) && Inv(d, from) && Schedule(d, from, actions, platform) && Lower(table) in d.tables
    ensures var sys := After(d, from, actions, platform);
            var chosen := ChosenRows(TableOf(sys.store, table), selection, ColumnsOf(d, table), platform);
            var answer := SelectRows(sys.store, table, selection, IndexesOf(d, table), ColumnsOf(d, table), platform);
            && (r in answer ==> r in chosen)
            && (r in chosen && !IsPending(sys.halfway, Lower(table), r.id)
                && (selection.Some? ==> LiteralExact(TableOf(sys.store, table), selection.value, ColumnsOf(d, table), platform))
                ==> r in answer)
  {
    EveryScheduleIsSafe(d, from, actions, platform);
    var sys, tn := After(d, from, actions, platform), Lower(table);
    var s, defs, columns := sys.store, IndexesOf(d, table), ColumnsOf(d, table);
    SelectIsSound(s, table, selection, defs, columns, platform);
    var t := TableOf(s, table);
    if r in ChosenRows(t, selection, columns, platform) && !IsPending(sys.halfway, tn, r.id)
       && (selection.Some? ==> LiteralExact(t, selection.value, columns, platform)) {
      var pending := set x | x in t && IsPending(sys.halfway, tn, x);
      SafeIsComplete(d, sys, table, pending);
      SelectIsComplete(s, table, selection, defs, columns, platform, pending, r);
    }
  }

  /** A selected row's id stands more than once in the posting that is used. */
  ghost predicate Repeats(s: Store, table: Str, e: Expr, defs: seq<IndexDef>, columns: seq<Column>,
      platform: Platform) {
    && IndexLookup(s, table, e, defs).Some?
    && exists r :: r in ChosenRows(TableOf(s, table), Some(e), columns, platform) && multiset(IndexLookup(s, table, e, defs).value)[r.id] > 1
  }

  /**
    * Once no INSERT is halfway, dangling ids or not, the index answers with the scan's rows exactly when none is filed
    * twice.
    */
  lemma QuietSelectIsScan(d: DatabaseDef, from: System, actions: seq<Action>, platform: Platform, table: Str, e: Expr)
    requires WellNamed(d) && Inv(d, from) && Schedule(d, from, actions, platform) && Lower(table) in d.tables
    requires After(d, from, actions, platform).halfway == map[]
    requires LiteralExact(TableOf(After(d, from, actions, platform).store, table), e, ColumnsOf(d, table), platform)
    ensures var s := After(d, from, actions, platform).store;
            SameRows(s, table, e, IndexesOf(d, table), ColumnsOf(d, table), platform)
            <==> !Repeats(s, table, e, IndexesOf(d, table), ColumnsOf(d, table), platform)
  {
    EveryScheduleIsSafe(d, from, actions, platform);
    var sys := After(d, from, actions, platform);
    var s, defs, columns := sys.store, IndexesOf(d, table), ColumnsOf(d, table);
    SameRowsIsFiledOnce(s, table, e, defs, columns, platform);
    if IndexLookup(s, table, e, defs).Some? {
      var ids: seq<nat> := IndexLookup(s, table, e, defs).value;
      forall r | r in ChosenRows(TableOf(s, table), Some(e), columns, platform) ensures multiset(ids)[r.id] >= 1 {
        SelectUnderInterleaving(d, from, actions, platform, table, Some(e), r);
        NoDupCounts(SelectRows(s, table, Some(e), defs, columns, platform), r);
        AnswerCounts(s, table, e, defs, columns, platform, r);
      }
    }
  }

  lemma SafeIsComplete(d: DatabaseDef, sys: System, table: Str, pending: set<nat>)
    requires WellNamed(d) && Inv(d, sys) && Lower(table) in d.tables
    requires forall x :: x in TableOf(sys.store, table) && IsPending(sys.halfway, Lower(table), x) ==> x in pending
    ensures Complete(sys.store, table, IndexesOf(d, table), ColumnsOf(d, table), pending)
  {
    var tn := Lower(table);
    var s, defs, columns, t := sys.store, IndexesOf(d, table), ColumnsOf(d, table), TableOf(sys.store, table);
    forall i, x | 0 <= i < |defs| && x in t && x !in pending
      ensures x in Filed(s.indexData, EntryName(tn, defs[i].name), KeyOf(defs[i], columns, t[x].values))
    {
      assert IndexSafe(sys, tn, d.indexes[tn][i], d.tables[tn].columns);
      assert TableOf(s, tn) == t;
    }
  }
}
