/** Sequential runs keep every index in step with its table, exactly as if it had just been rebuilt. */
module Coherence {
  import opened Prelude
  import opened Types
  import opened Index
  import opened Storage
  import opened Catalog
  import opened WalEntries
  import opened Maintenance
  import opened Where
  import opened Engine
  import opened Sections
  import opened Recovery

  /** The entry files every row of `t` once, under its own key, and nothing else. */
  ghost predicate InStep(data: Entries, entry: Str, def: IndexDef, columns: seq<Column>, t: Table) {
    && entry in data
    && (forall key, x :: x in Filed(data, entry, key) <==> x in t && KeyOf(def, columns, t[x].values) == key)
    && NoDups(data, entry)
  }

  ghost predicate TableInStep(d: DatabaseDef, s: Store, tn: Str)
    requires tn in d.tables && tn in d.indexes
  {
    && Lower(tn) == tn
    && DistinctNames(d.indexes[tn])
    && forall i :: 0 <= i < |d.indexes[tn]| ==>
                     InStep(s.indexData, EntryName(tn, d.indexes[tn][i].name), d.indexes[tn][i], d.tables[tn].columns, TableOf(s, tn))
  }

  ghost predicate AllInStep(d: DatabaseDef, s: Store) {
    && d.tables.Keys == d.indexes.Keys
    && EntriesApart(d)
    && s.tables.Keys <= d.tables.Keys
    && WfStore(s)
    && NoEmptyLists(s.indexData)
    && forall tn :: tn in d.tables ==> TableInStep(d, s, tn)
  }

  ghost predicate EngineInStep(e: Engine) {
    SRRDB in e.defs.databases && AllInStep(e.defs.databases[SRRDB], e.store)
  }

  lemma InStepIsWellNamed(d: DatabaseDef, s: Store)
    requires AllInStep(d, s)
    ensures WellNamed(d)
  {
    forall tn | tn in d.tables ensures Lower(tn) == tn && DistinctNames(d.indexes[tn]) {
      assert TableInStep(d, s, tn);
    }
  }

  // ---- Frames --------------------------------------------------------------------------------------

  /** A table keeps its indexes in step when neither its rows, its definitions nor its entries change. */
  lemma TableKept(d: DatabaseDef, s: Store, d': DatabaseDef, s': Store, tn: Str)
    requires tn in d.tables && tn in d.indexes && TableInStep(d, s, tn)
    requires tn in d'.tables && tn in d'.indexes && d'.tables[tn] == d.tables[tn] && d'.indexes[tn] == d.indexes[tn]
    requires TableOf(s', tn) == TableOf(s, tn)
    requires forall i :: 0 <= i < |d.indexes[tn]| ==> SameAt(s.indexData, s'.indexData, EntryName(tn, d.indexes[tn][i].name))
    ensures TableInStep(d', s', tn)
  {
    forall i | 0 <= i < |d.indexes[tn]|
      ensures InStep(s'.indexData, EntryName(tn, d.indexes[tn][i].name), d.indexes[tn][i], d.tables[tn].columns, TableOf(s', tn))
    {
      var entry := EntryName(tn, d.indexes[tn][i].name);
      assert InStep(s.indexData, entry, d.indexes[tn][i], d.tables[tn].columns, TableOf(s, tn));
      assert SameAt(s.indexData, s'.indexData, entry);
      forall key: Key ensures Filed(s'.indexData, entry, key) == Filed(s.indexData, entry, key) { }
    }
  }

  /** A section that replaces the rows of one table keeps all in step once it keeps that table's indexes in step. */
  lemma SectionKeepsOthers(d: DatabaseDef, s: Store, s': Store, table: Str, t: Table)
    requires AllInStep(d, s) && Lower(table) in d.tables && WfStore(s')
    requires OnlyTable(s.indexData, s'.indexData, Lower(table), d.indexes[Lower(table)])
    requires s'.tables == s.tables[Lower(table) := t]
    requires forall i :: 0 <= i < |d.indexes[Lower(table)]| ==>
                           InStep(s'.indexData, EntryName(Lower(table), d.indexes[Lower(table)][i].name), d.indexes[Lower(table)][i], d.tables[Lower(table)].columns, t)
    ensures AllInStep(d, s')
  {
    forall tn | tn in d.tables ensures TableInStep(d, s', tn) {
      assert TableInStep(d, s, tn);
      if tn != Lower(table) {
        assert TableOf(s', tn) == TableOf(s, tn);
        forall i | 0 <= i < |d.indexes[tn]| ensures SameAt(s.indexData, s'.indexData, EntryName(tn, d.indexes[tn][i].name)) {
          OtherEntrySame(d, s.indexData, s'.indexData, Lower(table), tn, i);
        }
        TableKept(d, s, d, s', tn);
      } else {
        assert TableOf(s', tn) == t;
      }
    }
  }

  // ---- INSERT, DELETE, UPDATE -----------------------------------------------------------------------

  /** What storing rows does to a table: the old rows stay, the new ids are beyond the counter. */
  ghost predicate Extends(t: Table, t': Table, ids: seq<nat>) {
    && (forall x :: x in t' <==> x in t || x in ids)
    && (forall x :: x in t ==> x !in ids && t'[x] == t[x])
  }

  lemma GainedInStep(before: Entries, after: Entries, entry: Str, s: Store, table: Str, ids: seq<nat>, def: IndexDef,
      columns: seq<Column>, t: Table)
    requires InStep(before, entry, def, columns, t)
    requires entry in after && NoDups(after, entry) && Gained(before, after, entry, s, table, ids, def, columns)
    requires Extends(t, TableOf(s, table), ids)
    ensures InStep(after, entry, def, columns, TableOf(s, table))
  {
    var t' := TableOf(s, table);
    forall key: Key, x: nat ensures x in Filed(after, entry, key) <==> x in t' && KeyOf(def, columns, t'[x].values) == key {
      assert x in Filed(before, entry, key) <==> x in t && KeyOf(def, columns, t[x].values) == key;
      assert x in t' ==> FoundRow(s, table, x).values == t'[x].values;
    }
  }

  lemma LostInStep(before: Entries, after: Entries, entry: Str, t: Table, selection: Option<Expr>,
      columns: seq<Column>, platform: Platform, def: IndexDef)
    requires InStep(before, entry, def, columns, t)
    requires entry in after && NoDups(after, entry) && Lost(before, after, entry, t, selection, columns, platform, def)
    ensures InStep(after, entry, def, columns, Remaining(t, selection, columns, platform))
  {
  }

  lemma MovedInStep(before: Entries, after: Entries, entry: Str, t: Table, selection: Option<Expr>,
      columns: seq<Column>, targets: seq<Target>, platform: Platform, def: IndexDef)
    requires InStep(before, entry, def, columns, t)
    requires entry in after && NoDups(after, entry) && Moved(before, after, entry, t, selection, columns, targets, platform, def)
    ensures InStep(after, entry, def, columns, Updated(t, selection, columns, targets, platform))
  {
  }

  lemma StoredExtends(s: Store, table: Str, rows: seq<Row>)
    requires WfStore(s)
    requires forall r :: r in rows ==> r.id == 0
    ensures Extends(TableOf(s, table), TableOf(StoreRows(s, table, rows), table), InsertedIds(s, table, rows))
    ensures forall j :: 0 <= j < |rows| ==> InsertedIds(s, table, rows)[j] == NextOf(s, table) + j
  {
    var t, next := TableOf(s, table), NextOf(s, table);
    FreshRows(t, next, rows);
    var p := PlaceAll(t, next, rows);
    forall x: nat ensures x in p.ids <==> next <= x < p.next {
      if next <= x < p.next {
        assert p.ids[x - next] == x;
      }
    }
  }

  lemma FreshIdsNoDups(s: Store, table: Str, ids: seq<nat>, before: Table, next: nat, defs: seq<IndexDef>,
      columns: seq<Column>, i: nat)
    requires DistinctNames(defs) && i < |defs|
    requires InStep(s.indexData, EntryName(Lower(table), defs[i].name), defs[i], columns, before)
    requires WfTable(before, next) && forall j :: 0 <= j < |ids| ==> ids[j] == next + j
    ensures NoDups(IndexRows(s, table, ids, defs, columns).indexData, EntryName(Lower(table), defs[i].name))
  {
    var rows, entry := FoundRows(s, table, ids), EntryName(Lower(table), defs[i].name);
    forall key: Key, j: nat | j < |rows| ensures rows[j].id !in Filed(s.indexData, entry, key) {
      assert rows[j].id == next + j && next + j !in before;
    }
    FileRowsNoDup(s.indexData, Lower(table), defs, columns, rows, i);
  }

  lemma InsertKeepsIndex(s: Store, table: Str, rows: seq<Row>, defs: seq<IndexDef>, columns: seq<Column>, i: nat)
    requires WfStore(s) && DistinctNames(defs) && i < |defs|
    requires InStep(s.indexData, EntryName(Lower(table), defs[i].name), defs[i], columns, TableOf(s, table))
    requires forall r :: r in rows ==> r.id == 0
    ensures var stored, ids := StoreRows(s, table, rows), InsertedIds(s, table, rows);
            InStep(IndexRows(stored, table, ids, defs, columns).indexData, EntryName(Lower(table), defs[i].name), defs[i], columns, TableOf(stored, table))
  {
    var stored, ids, entry := StoreRows(s, table, rows), InsertedIds(s, table, rows), EntryName(Lower(table), defs[i].name);
    StoredExtends(s, table, rows);
    FreshIdsNoDups(stored, table, ids, TableOf(s, table), NextOf(s, table), defs, columns, i);
    IndexRowsFiles(stored, table, ids, defs, columns, i);
    FileRowsFrame(stored.indexData, Lower(table), defs, columns, FoundRows(stored, table, ids));
    GainedInStep(s.indexData, IndexRows(stored, table, ids, defs, columns).indexData, entry, stored, table, ids, defs[i], columns, TableOf(s, table));
  }

  lemma InsertKeepsStep(d: DatabaseDef, s: Store, table: Str, rows: seq<Row>)
    requires AllInStep(d, s) && Lower(table) in d.tables
    requires forall r :: r in rows ==> r.id == 0
    ensures AllInStep(d, IndexRows(StoreRows(s, table, rows), table, InsertedIds(s, table, rows),
                                   d.indexes[Lower(table)], d.tables[Lower(table)].columns))
  {
    var tn := Lower(table);
    var columns, defs, ids, stored := d.tables[tn].columns, d.indexes[tn], InsertedIds(s, table, rows), StoreRows(s, table, rows);
    var s' := IndexRows(stored, table, ids, defs, columns);
    assert TableInStep(d, s, tn);
    LowerIdempotent(table);
    InsertedKeepsWf(s, table, rows);
    IndexRowsOnly(stored, table, ids, defs, columns);
    forall i | 0 <= i < |defs| ensures InStep(s'.indexData, EntryName(tn, defs[i].name), defs[i], columns, TableOf(stored, table)) {
      assert InStep(s.indexData, EntryName(tn, defs[i].name), defs[i], columns, TableOf(s, tn));
      InsertKeepsIndex(s, table, rows, defs, columns, i);
    }
    SectionKeepsOthers(d, s, s', table, TableOf(stored, table));
  }

  lemma DeleteKeepsIndex(s: Store, table: Str, selection: Option<Expr>, defs: seq<IndexDef>, columns: seq<Column>,
      platform: Platform, i: nat)
    requires WfStore(s) && DistinctNames(defs) && i < |defs|
    requires InStep(s.indexData, EntryName(Lower(table), defs[i].name), defs[i], columns, TableOf(s, table))
    ensures InStep(DeleteRows(s, table, selection, defs, columns, platform).indexData, EntryName(Lower(table), defs[i].name), defs[i],
                   columns, Remaining(TableOf(s, table), selection, columns, platform))
  {
    var after := DeleteRows(s, table, selection, defs, columns, platform).indexData;
    DeleteUnfiles(s, table, selection, defs, columns, platform, i);
    UnfileRowsFrame(s.indexData, Lower(table), defs, columns, ChosenRows(TableOf(s, table), selection, columns, platform));
    LostInStep(s.indexData, after, EntryName(Lower(table), defs[i].name), TableOf(s, table), selection, columns, platform, defs[i]);
  }

  lemma DeleteKeepsStep(d: DatabaseDef, s: Store, table: Str, selection: Option<Expr>, platform: Platform)
    requires AllInStep(d, s) && Lower(table) in d.tables && Lower(table) in s.tables
    ensures AllInStep(d, DeleteRows(s, table, selection, d.indexes[Lower(table)], d.tables[Lower(table)].columns, platform))
  {
    var tn := Lower(table);
    var columns, defs := d.tables[tn].columns, d.indexes[tn];
    var s' := DeleteRows(s, table, selection, defs, columns, platform);
    assert TableInStep(d, s, tn);
    var t := Remaining(TableOf(s, table), selection, columns, platform);
    DeleteRowsOnly(s, table, selection, defs, columns, platform);
    assert WfTable(t, s.nextIds[tn]);
    forall i | 0 <= i < |defs| ensures InStep(s'.indexData, EntryName(tn, defs[i].name), defs[i], columns, t) {
      assert InStep(s.indexData, EntryName(tn, defs[i].name), defs[i], columns, TableOf(s, tn));
      DeleteKeepsIndex(s, table, selection, defs, columns, platform, i);
    }
    SectionKeepsOthers(d, s, s', table, t);
  }

  lemma UpdateKeepsIndex(s: Store, table: Str, selection: Option<Expr>, targets: seq<Target>, defs: seq<IndexDef>,
      columns: seq<Column>, platform: Platform, i: nat)
    requires WfStore(s) && DistinctNames(defs) && i < |defs|
    requires InStep(s.indexData, EntryName(Lower(table), defs[i].name), defs[i], columns, TableOf(s, table))
    ensures InStep(UpdateRows(s, table, selection, targets, defs, columns, platform).indexData, EntryName(Lower(table), defs[i].name), defs[i],
                   columns, Updated(TableOf(s, table), selection, columns, targets, platform))
  {
    var t, entry := TableOf(s, table), EntryName(Lower(table), defs[i].name);
    var after := UpdateRows(s, table, selection, targets, defs, columns, platform).indexData;
    var chosen := ChosenRows(t, selection, columns, platform);
    assert FiledByKey(s.indexData, entry, t, defs[i], columns);
    UpdateMoves(s, table, selection, targets, defs, columns, platform, i);
    UnfileRowsFrame(s.indexData, Lower(table), defs, columns, chosen);
    FileRowsFrame(UnfileRows(s.indexData, Lower(table), defs, columns, chosen), Lower(table), defs, columns, AssignedRows(chosen, targets));
    MovedInStep(s.indexData, after, entry, t, selection, columns, targets, platform, defs[i]);
  }

  lemma UpdateKeepsStep(d: DatabaseDef, s: Store, table: Str, selection: Option<Expr>, targets: seq<Target>,
      platform: Platform)
    requires AllInStep(d, s) && Lower(table) in d.tables && Lower(table) in s.tables
    ensures AllInStep(d, UpdateRows(s, table, selection, targets, d.indexes[Lower(table)], d.tables[Lower(table)].columns, platform))
  {
    var tn := Lower(table);
    var columns, defs := d.tables[tn].columns, d.indexes[tn];
    var s' := UpdateRows(s, table, selection, targets, defs, columns, platform);
    assert TableInStep(d, s, tn);
    var t := TableOf(s, table);
    var t' := Updated(t, selection, columns, targets, platform);
    UpdateRowsOnly(s, table, selection, targets, defs, columns, platform);
    UpdatedKeepsWf(t, selection, columns, targets, platform, s.nextIds[tn]);
    forall i | 0 <= i < |defs| ensures InStep(s'.indexData, EntryName(tn, defs[i].name), defs[i], columns, t') {
      assert InStep(s.indexData, EntryName(tn, defs[i].name), defs[i], columns, TableOf(s, tn));
      UpdateKeepsIndex(s, table, selection, targets, defs, columns, platform, i);
    }
    SectionKeepsOthers(d, s, s', table, t');
  }

  // ---- CREATE INDEX ------------------------------------------------------------------------------------

  lemma {:induction false} BuildIndexFiles(def: IndexDef, columns: seq<Column>, rows: seq<Row>)
    ensures var ix := BuildIndex(def, columns, rows);
            NoEmptyList(ix) && forall key, x :: x in Ids(ix, key) <==> Held(rows, def, columns, key, x)
  {
    if rows != [] {
      var init, last := rows[..|rows| - 1], rows[|rows| - 1];
      BuildIndexFiles(def, columns, init);
      AddEffect(BuildIndex(def, columns, init), KeyOf(def, columns, last.values), last.id);
      forall key: Key, x: nat ensures x in Ids(BuildIndex(def, columns, rows), key) <==> Held(rows, def, columns, key, x) {
        HeldSplit(rows, def, columns, key, x);
      }
    }
  }

  lemma {:induction false} BuildIndexNoDup(def: IndexDef, columns: seq<Column>, rows: seq<Row>)
    requires InIdOrder(rows)
    ensures forall key :: NoDup(Ids(BuildIndex(def, columns, rows), key))
  {
    if rows != [] {
      var init, last := rows[..|rows| - 1], rows[|rows| - 1];
      BuildIndexNoDup(def, columns, init);
      BuildIndexFiles(def, columns, init);
      var ix := BuildIndex(def, columns, init);
      var key0 := KeyOf(def, columns, last.values);
      AddEffect(ix, key0, last.id);
      forall key: Key ensures NoDup(Ids(Add(ix, key0, last.id), key)) {
        assert last.id !in Ids(ix, key);
      }
    }
  }

  /** The index files every row of `t` once, under its own key, nothing else, and keeps no empty list. */
  ghost predicate Exact(ix: Postings, def: IndexDef, columns: seq<Column>, t: Table) {
    && NoEmptyList(ix)
    && (forall key, x :: x in Ids(ix, key) <==> x in t && KeyOf(def, columns, t[x].values) == key)
    && (forall key :: NoDup(Ids(ix, key)))
  }

  /** An index built from a table is exact. */
  lemma BuildIndexIsExact(def: IndexDef, columns: seq<Column>, t: Table, rows: seq<Row>)
    requires Enumerates(rows, t)
    ensures Exact(BuildIndex(def, columns, rows), def, columns, t)
  {
    BuildIndexFiles(def, columns, rows);
    BuildIndexNoDup(def, columns, rows);
    forall key: Key, x: nat ensures Held(rows, def, columns, key, x) <==> x in t && KeyOf(def, columns, t[x].values) == key {
      if x in t && KeyOf(def, columns, t[x].values) == key {
        assert t[x] in rows;
      }
      if Held(rows, def, columns, key, x) {
        var j :| 0 <= j < |rows| && rows[j].id == x && KeyOf(def, columns, rows[j].values) == key;
        assert rows[j] in rows;
      }
    }
  }

  lemma ExactInStep(data: Entries, entry: Str, def: IndexDef, columns: seq<Column>, t: Table)
    requires entry in data
    ensures InStep(data, entry, def, columns, t) && NoEmptyList(data[entry]) <==> Exact(data[entry], def, columns, t)
  {
    forall key: Key ensures Filed(data, entry, key) == Ids(data[entry], key) { }
  }

  lemma {:induction false} NoSuchName(defs: seq<IndexDef>, name: Str)
    requires !HasIndex(defs, name)
    ensures forall i :: 0 <= i < |defs| ==> !SameName(defs[i].name, name)
  {
  }

  /** The database with one more index on `tn`. */
  function MoreIndexes(d: DatabaseDef, tn: Str, defs: seq<IndexDef>): DatabaseDef {
    d.(indexes := d.indexes[tn := defs])
  }

  /** No index of another table is kept under the name of index `name` of `tn`. */
  predicate FreeEntry(d: DatabaseDef, tn: Str, name: Str) {
    forall u, i :: u in d.indexes && u != tn && 0 <= i < |d.indexes[u]| ==> EntryName(u, d.indexes[u][i].name) != EntryName(tn, name)
  }

  /** Changing the index list of `tn` and one entry that is `tn`'s own leaves the other tables in step. */
  lemma OtherTablesKept(d: DatabaseDef, s: Store, tn: Str, defs: seq<IndexDef>, name: Str, data: Entries)
    requires AllInStep(d, s) && tn in d.tables && FreeEntry(d, tn, name)
    requires SameBut(s.indexData, data, EntryName(tn, name))
    ensures forall u :: u in d.tables && u != tn ==> TableInStep(MoreIndexes(d, tn, defs), s.(indexData := data), u)
  {
    forall u | u in d.tables && u != tn ensures TableInStep(MoreIndexes(d, tn, defs), s.(indexData := data), u) {
      assert TableInStep(d, s, u);
      forall i | 0 <= i < |d.indexes[u]| ensures SameAt(s.indexData, data, EntryName(u, d.indexes[u][i].name)) {
        assert EntryName(u, d.indexes[u][i].name) != EntryName(tn, name);
      }
      TableKept(d, s, MoreIndexes(d, tn, defs), s.(indexData := data), u);
    }
  }

  /** One more index keeps every index in an entry of its own exactly when its entry is free. */
  lemma StillApart(d: DatabaseDef, tn: Str, def: IndexDef)
    requires EntriesApart(d) && tn in d.indexes
    ensures EntriesApart(MoreIndexes(d, tn, d.indexes[tn] + [def])) <==> FreeEntry(d, tn, def.name)
  {
    var defs := d.indexes[tn];
    var d', n := MoreIndexes(d, tn, defs + [def]), |defs|;
    if FreeEntry(d, tn, def.name) {
      forall u, v | u in d'.indexes && v in d'.indexes && u != v ensures ListsApart(u, d'.indexes[u], v, d'.indexes[v]) {
        assert ListsApart(u, d.indexes[u], v, d.indexes[v]);
      }
    }
    if EntriesApart(d') {
      forall u, i | u in d.indexes && u != tn && 0 <= i < |d.indexes[u]| ensures EntryName(u, d.indexes[u][i].name) != EntryName(tn, def.name) {
        assert ListsApart(u, d'.indexes[u], tn, d'.indexes[tn]);
        assert d'.indexes[tn][n] == def;
      }
    }
  }

  /** One index less leaves every index in an entry of its own. */
  lemma FewerApart(d: DatabaseDef, tn: Str, p: nat)
    requires EntriesApart(d) && tn in d.indexes && p < |d.indexes[tn]|
    ensures EntriesApart(MoreIndexes(d, tn, d.indexes[tn][..p] + d.indexes[tn][p + 1..]))
    ensures FreeEntry(d, tn, d.indexes[tn][p].name)
  {
    var d' := MoreIndexes(d, tn, d.indexes[tn][..p] + d.indexes[tn][p + 1..]);
    forall u, v | u in d'.indexes && v in d'.indexes && u != v ensures ListsApart(u, d'.indexes[u], v, d'.indexes[v]) {
      assert ListsApart(u, d.indexes[u], v, d.indexes[v]);
    }
    forall u, i | u in d.indexes && u != tn && 0 <= i < |d.indexes[u]| ensures EntryName(u, d.indexes[u][i].name) != EntryName(tn, d.indexes[tn][p].name) {
      assert ListsApart(u, d.indexes[u], tn, d.indexes[tn]);
    }
  }

  lemma SameEntryInStep(before: Entries, after: Entries, entry: Str, def: IndexDef, columns: seq<Column>, t: Table)
    requires InStep(before, entry, def, columns, t) && SameAt(before, after, entry)
    ensures InStep(after, entry, def, columns, t)
  {
    forall key: Key ensures Filed(after, entry, key) == Filed(before, entry, key) { }
  }

  lemma IndexAdded(d: DatabaseDef, s: Store, tn: Str, def: IndexDef, ix: Postings)
    requires AllInStep(d, s) && tn in d.tables && !HasIndex(d.indexes[tn], def.name) && FreeEntry(d, tn, def.name)
    requires Exact(ix, def, d.tables[tn].columns, TableOf(s, tn))
    ensures AllInStep(MoreIndexes(d, tn, d.indexes[tn] + [def]), s.(indexData := s.indexData[EntryName(tn, def.name) := ix]))
  {
    var more, data := d.indexes[tn] + [def], s.indexData[EntryName(tn, def.name) := ix];
    assert TableInStep(d, s, tn);
    StillApart(d, tn, def);
    OtherTablesKept(d, s, tn, more, def.name, data);
    OwnTableAdded(d, s, tn, def, ix);
  }

  lemma OwnTableAdded(d: DatabaseDef, s: Store, tn: Str, def: IndexDef, ix: Postings)
    requires tn in d.tables && tn in d.indexes && TableInStep(d, s, tn) && !HasIndex(d.indexes[tn], def.name)
    requires Exact(ix, def, d.tables[tn].columns, TableOf(s, tn))
    ensures TableInStep(MoreIndexes(d, tn, d.indexes[tn] + [def]), s.(indexData := s.indexData[EntryName(tn, def.name) := ix]), tn)
  {
    var defs := d.indexes[tn];
    var more, data := defs + [def], s.indexData[EntryName(tn, def.name) := ix];
    NoSuchName(defs, def.name);
    forall i | 0 <= i < |more| ensures InStep(data, EntryName(tn, more[i].name), more[i], d.tables[tn].columns, TableOf(s, tn)) {
      if i < |defs| {
        EntryNamesAgree(tn, defs[i].name, def.name);
        SameEntryInStep(s.indexData, data, EntryName(tn, defs[i].name), defs[i], d.tables[tn].columns, TableOf(s, tn));
      } else {
        ExactInStep(data, EntryName(tn, def.name), def, d.tables[tn].columns, TableOf(s, tn));
      }
    }
  }

  // ---- What breaks the step -------------------------------------------------------------------------------

  function DefOf(s: Statement): IndexDef
    requires s.CreateIndexStmt?
  {
    IndexDef(IndexName(s.table, s.indexName, s.indexColumns), s.indexType, s.table, s.indexColumns, s.unique)
  }

  /** A CREATE INDEX that gets as far as the catalog's entry: known table, at least one column, new name. */
  predicate DefinesIndex(e: Engine, db: Str, s: Statement) {
    && s.CreateIndexStmt? && s.indexColumns != []
    && GetTable(e.defs, db, s.table).Ok? && WithIndex(e.defs, db, DefOf(s)).Ok?
  }

  /** A CREATE UNIQUE INDEX over rows of which two have one key. */
  predicate MeetsDuplicate(e: Engine, db: Str, s: Statement) {
    && DefinesIndex(e, db, s) && s.unique
    && HasDuplicate(DefOf(s), GetTable(e.defs, db, s.table).value.columns, GetRows(e.store, s.table))
  }

  /** A CREATE INDEX whose entry is that of another table's index. */
  predicate SharesEntry(e: Engine, db: Str, s: Statement) {
    DefinesIndex(e, db, s) && !FreeEntry(e.defs.databases[Lower(db)], Lower(s.table), DefOf(s).name)
  }

  /** A DROP TABLE with another table's index among its entries. */
  predicate DropsForeignEntry(e: Engine, db: Str, s: Statement) {
    && s.DropTableStmt? && GetTable(e.defs, db, s.name).Ok?
    && var lists := e.defs.databases[Lower(db)].indexes;
       exists u, i :: u in lists && u != Lower(s.name) && 0 <= i < |lists[u]| && Overlaps(Lower(s.name), u, lists[u][i].name)
  }

  /** What puts an index out of step, told from the state before the statement. */
  predicate Breaks(e: Engine, db: Str, s: Statement) {
    MeetsDuplicate(e, db, s) || SharesEntry(e, db, s) || DropsForeignEntry(e, db, s)
  }

  lemma DefinedIndexStep(e: Engine, db: Str, s: Statement, platform: Platform)
    requires EngineInStep(e) && Lower(db) == SRRDB && DefinesIndex(e, db, s)
    ensures EngineInStep(Exec(e, db, s, platform).engine) <==> !MeetsDuplicate(e, db, s) && !SharesEntry(e, db, s)
  {
    var d, tn, after := e.defs.databases[SRRDB], Lower(s.table), Exec(e, db, s, platform).engine;
    assert TableInStep(d, e.store, tn);
    StillApart(d, tn, DefOf(s));
    assert after.defs.databases[SRRDB] == MoreIndexes(d, tn, d.indexes[tn] + [DefOf(s)]);
    if MeetsDuplicate(e, db, s) {
      IndexWithoutData(after, tn, |d.indexes[tn]|);
    } else if FreeEntry(d, tn, DefOf(s).name) {
      TableIsWf(e.store, s.table);
      ValuesOfWf(TableOf(e.store, s.table), NextOf(e.store, s.table));
      BuiltIndexAdded(d, e.store, tn, DefOf(s), GetRows(e.store, s.table));
    }
  }

  lemma UndefinedIndexStays(e: Engine, db: Str, s: Statement, platform: Platform)
    requires s.CreateIndexStmt? && !DefinesIndex(e, db, s)
    ensures Exec(e, db, s, platform).engine == e
  {
  }

  /** CREATE INDEX keeps all indexes in step exactly when it meets no duplicate and no foreign entry. */
  lemma CreateIndexStep(e: Engine, db: Str, s: Statement, platform: Platform)
    requires EngineInStep(e) && Lower(db) == SRRDB && s.CreateIndexStmt?
    ensures EngineInStep(Exec(e, db, s, platform).engine) <==> !MeetsDuplicate(e, db, s) && !SharesEntry(e, db, s)
  {
    if DefinesIndex(e, db, s) {
      DefinedIndexStep(e, db, s, platform);
    } else {
      UndefinedIndexStays(e, db, s, platform);
    }
  }

  lemma BuiltIndexAdded(d: DatabaseDef, s: Store, tn: Str, def: IndexDef, rows: seq<Row>)
    requires AllInStep(d, s) && tn in d.tables && !HasIndex(d.indexes[tn], def.name) && FreeEntry(d, tn, def.name)
    requires Enumerates(rows, TableOf(s, tn))
    ensures var ix := BuildIndex(def, d.tables[tn].columns, rows);
            AllInStep(MoreIndexes(d, tn, d.indexes[tn] + [def]), s.(indexData := s.indexData[EntryName(tn, def.name) := ix]))
  {
    BuildIndexIsExact(def, d.tables[tn].columns, TableOf(s, tn), rows);
    IndexAdded(d, s, tn, def, BuildIndex(def, d.tables[tn].columns, rows));
  }

  lemma IndexWithoutData(e: Engine, tn: Str, n: nat)
    requires SRRDB in e.defs.databases && tn in e.defs.databases[SRRDB].tables && tn in e.defs.databases[SRRDB].indexes
    requires n < |e.defs.databases[SRRDB].indexes[tn]|
    requires EntryName(tn, e.defs.databases[SRRDB].indexes[tn][n].name) !in e.store.indexData
    ensures !EngineInStep(e)
  {
  }

  lemma TableIsWf(s: Store, table: Str)
    requires WfStore(s)
    ensures WfTable(TableOf(s, table), NextOf(s, table))
  {
  }

  // ---- DROP INDEX, CREATE TABLE, DROP TABLE ---------------------------------------------------------------

  lemma IndexRemoved(d: DatabaseDef, s: Store, tn: Str, p: nat, name: Str)
    requires AllInStep(d, s) && tn in d.tables && p < |d.indexes[tn]| && SameName(d.indexes[tn][p].name, name)
    ensures AllInStep(MoreIndexes(d, tn, d.indexes[tn][..p] + d.indexes[tn][p + 1..]), s.(indexData := s.indexData - {EntryName(tn, name)}))
  {
    assert TableInStep(d, s, tn);
    FewerApart(d, tn, p);
    EntryNamesAgree(tn, d.indexes[tn][p].name, name);
    OtherTablesKept(d, s, tn, d.indexes[tn][..p] + d.indexes[tn][p + 1..], name, s.indexData - {EntryName(tn, name)});
    OwnTableRemoved(d, s, tn, p, name);
  }

  lemma OwnTableRemoved(d: DatabaseDef, s: Store, tn: Str, p: nat, name: Str)
    requires tn in d.tables && tn in d.indexes && TableInStep(d, s, tn)
    requires p < |d.indexes[tn]| && SameName(d.indexes[tn][p].name, name)
    ensures TableInStep(MoreIndexes(d, tn, d.indexes[tn][..p] + d.indexes[tn][p + 1..]), s.(indexData := s.indexData - {EntryName(tn, name)}), tn)
  {
    var defs, data := d.indexes[tn], s.indexData - {EntryName(tn, name)};
    var fewer := defs[..p] + defs[p + 1..];
    forall i | 0 <= i < |fewer| ensures InStep(data, EntryName(tn, fewer[i].name), fewer[i], d.tables[tn].columns, TableOf(s, tn)) {
      var j := if i < p then i else i + 1;
      assert fewer[i] == defs[j];
      EntryNamesAgree(tn, defs[j].name, name);
      SameEntryInStep(s.indexData, data, EntryName(tn, defs[j].name), defs[j], d.tables[tn].columns, TableOf(s, tn));
    }
  }

  lemma {:induction false} FoundTableIsKept(c: Definitions, db: Str, order: seq<Str>, name: Str)
    requires FindIndexTable(c, db, order, name).Some?
    ensures var tn := FindIndexTable(c, db, order, name).value;
            Lower(db) in c.databases && tn in c.databases[Lower(db)].indexes && HasIndex(c.databases[Lower(db)].indexes[tn], name)
  {
    var lists := c.databases[Lower(db)].indexes;
    if !(order[0] in lists && HasIndex(lists[order[0]], name)) {
      FoundTableIsKept(c, db, order[1..], name);
    }
  }

  lemma FoundIndexRemoved(e: Engine, db: Str, name: Str, ifExists: bool, order: seq<Str>)
    requires EngineInStep(e) && Lower(db) == SRRDB && FindIndexTable(e.defs, db, order, name).Some?
    ensures EngineInStep(ExecDropIndex(e, db, name, ifExists, order).engine)
  {
    FoundTableIsKept(e.defs, db, order, name);
    var d, tn := e.defs.databases[SRRDB], FindIndexTable(e.defs, db, order, name).value;
    assert Lower(tn) == tn by {
      assert TableInStep(d, e.store, tn);
    }
    IndexRemoved(d, e.store, tn, IndexPosition(d.indexes[tn], name), name);
  }

  lemma DropIndexStep(e: Engine, db: Str, name: Str, ifExists: bool, order: seq<Str>)
    requires EngineInStep(e) && Lower(db) == SRRDB
    ensures EngineInStep(ExecDropIndex(e, db, name, ifExists, order).engine)
  {
    if FindIndexTable(e.defs, db, order, name).Some? {
      FoundIndexRemoved(e, db, name, ifExists, order);
    }
  }

  lemma CreateTableStep(e: Engine, db: Str, name: Str, columns: seq<Column>, ifNotExists: bool)
    requires EngineInStep(e) && Lower(db) == SRRDB
    ensures EngineInStep(ExecCreateTable(e, db, name, columns, ifNotExists).engine)
  {
    var after := ExecCreateTable(e, db, name, columns, ifNotExists).engine;
    var d, d', tn := e.defs.databases[SRRDB], after.defs.databases[SRRDB], Lower(name);
    if d' != d {
      LowerIdempotent(name);
      forall u, v | u in d'.indexes && v in d'.indexes && u != v ensures ListsApart(u, d'.indexes[u], v, d'.indexes[v]) {
        if u != tn && v != tn {
          assert ListsApart(u, d.indexes[u], v, d.indexes[v]);
        }
      }
      forall u | u in d.tables ensures TableInStep(d', after.store, u) {
        assert TableInStep(d, e.store, u);
        TableKept(d, e.store, d', after.store, u);
      }
      assert TableInStep(d', after.store, tn);
    }
  }

  lemma OtherEntryKept(d: DatabaseDef, s: Store, name: Str, u: Str, i: nat)
    requires AllInStep(d, s) && u in d.tables && i < |d.indexes[u]| && !Overlaps(Lower(name), u, d.indexes[u][i].name)
    ensures SameAt(s.indexData, Cleared(s, Lower(name)).indexData, EntryName(u, d.indexes[u][i].name))
  {
    assert TableInStep(d, s, u);
    LowerIdempotent(name);
    EntryTaken(s, Lower(name), u, d.indexes[u][i].name);
  }

  lemma OtherEntryLost(d: DatabaseDef, s: Store, d': DatabaseDef, name: Str, u: Str, i: nat)
    requires AllInStep(d, s) && u in d.tables && i < |d.indexes[u]| && Overlaps(Lower(name), u, d.indexes[u][i].name)
    requires u in d'.tables && u in d'.indexes && d'.indexes[u] == d.indexes[u]
    ensures !TableInStep(d', Cleared(s, Lower(name)), u)
  {
    assert TableInStep(d, s, u);
    LowerIdempotent(name);
    assert InStep(s.indexData, EntryName(u, d.indexes[u][i].name), d.indexes[u][i], d.tables[u].columns, TableOf(s, u));
    EntryTaken(s, Lower(name), u, d.indexes[u][i].name);
  }

  /** The database without table `tn`. */
  function FewerTables(d: DatabaseDef, tn: Str): DatabaseDef {
    d.(tables := d.tables - {tn}, indexes := d.indexes - {tn})
  }

  lemma OtherTableSurvives(d: DatabaseDef, s: Store, name: Str, u: Str)
    requires AllInStep(d, s) && u in d.tables && u != Lower(name)
    requires forall i :: 0 <= i < |d.indexes[u]| ==> !Overlaps(Lower(name), u, d.indexes[u][i].name)
    ensures TableInStep(FewerTables(d, Lower(name)), Cleared(s, Lower(name)), u)
  {
    assert TableInStep(d, s, u);
    LowerIdempotent(name);
    forall i | 0 <= i < |d.indexes[u]| ensures SameAt(s.indexData, Cleared(s, Lower(name)).indexData, EntryName(u, d.indexes[u][i].name)) {
      OtherEntryKept(d, s, name, u, i);
    }
    TableKept(d, s, FewerTables(d, Lower(name)), Cleared(s, Lower(name)), u);
  }

  lemma WithoutTableInStep(d: DatabaseDef, s: Store, name: Str)
    requires AllInStep(d, s) && Lower(name) in d.tables
    requires forall u, i :: u in d.indexes && u != Lower(name) && 0 <= i < |d.indexes[u]| ==> !Overlaps(Lower(name), u, d.indexes[u][i].name)
    ensures AllInStep(FewerTables(d, Lower(name)), Cleared(s, Lower(name)))
  {
    var d', s' := FewerTables(d, Lower(name)), Cleared(s, Lower(name));
    LowerIdempotent(name);
    ClearedKeepsWf(s, Lower(name));
    forall u, v | u in d'.indexes && v in d'.indexes && u != v ensures ListsApart(u, d'.indexes[u], v, d'.indexes[v]) {
      assert ListsApart(u, d.indexes[u], v, d.indexes[v]);
    }
    forall u | u in d'.tables ensures TableInStep(d', s', u) {
      OtherTableSurvives(d, s, name, u);
    }
  }

  /** DROP TABLE keeps the other tables' indexes in step exactly when none of them lies among its entries. */
  lemma DropTableStep(e: Engine, db: Str, s: Statement, platform: Platform)
    requires EngineInStep(e) && Lower(db) == SRRDB && s.DropTableStmt?
    ensures EngineInStep(Exec(e, db, s, platform).engine) <==> !DropsForeignEntry(e, db, s)
  {
    var d, tn := e.defs.databases[SRRDB], Lower(s.name);
    LowerIdempotent(s.name);
    if tn in d.tables {
      if DropsForeignEntry(e, db, s) {
        var u, i :| u in d.indexes && u != tn && 0 <= i < |d.indexes[u]| && Overlaps(tn, u, d.indexes[u][i].name);
        OtherEntryLost(d, e.store, Exec(e, db, s, platform).engine.defs.databases[SRRDB], s.name, u, i);
      } else {
        WithoutTableInStep(d, e.store, s.name);
      }
    }
  }

  // ---- Whole runs -------------------------------------------------------------------------------------------

  /**
    * One statement keeps every index in step, in an entry of its own, exactly when it is none of the three that break
    * it.
    */
  lemma StatementStep(e: Engine, db: Str, s: Statement, platform: Platform)
    requires EngineInStep(e) && Lower(db) == SRRDB
    ensures EngineInStep(Exec(e, db, s, platform).engine) <==> !Breaks(e, db, s)
  {
    var d := e.defs.databases[SRRDB];
    match s {
      case CreateTableStmt(name, columns, ifNotExists) => CreateTableStep(e, db, name, columns, ifNotExists);
      case DropTableStmt(name, ifExists) => DropTableStep(e, db, s, platform);
      case CreateIndexStmt(table, given, kind, columns, unique) => CreateIndexStep(e, db, s, platform);
      case DropIndexStmt(name, ifExists, order) => DropIndexStep(e, db, name, ifExists, order);
      case InsertStmt(table, names, source, now) => InsertStep(e, db, table, names, source, now);
      case DeleteStmt(table, selection) => DeleteStep(e, db, table, selection, platform);
      case UpdateStmt(table, assignments, selection) => UpdateStep(e, db, table, assignments, selection, platform);
    }
  }

  /** Where no table's name holds a colon, only the duplicate breaks the step. */
  lemma ColonFreeBreaks(e: Engine, db: Str, s: Statement)
    requires Lower(db) in e.defs.databases
    requires forall tn :: tn in e.defs.databases[Lower(db)].indexes ==> ColonFree(tn)
    requires s.DropTableStmt? ==> ColonFree(Lower(s.name))
    requires s.CreateIndexStmt? ==> ColonFree(Lower(s.table))
    ensures Breaks(e, db, s) <==> MeetsDuplicate(e, db, s)
  {
    var lists: map<Str, seq<IndexDef>> := e.defs.databases[Lower(db)].indexes;
    if s.CreateIndexStmt? {
      forall u, i | u in lists && u != Lower(s.table) && 0 <= i < |lists[u]|
        ensures EntryName(u, lists[u][i].name) != EntryName(Lower(s.table), DefOf(s).name)
      {
        ColonFreeNamesApart(u, Lower(s.table), lists[u][i].name, DefOf(s).name);
      }
    }
    if s.DropTableStmt? {
      forall u, i | u in lists && u != Lower(s.name) && 0 <= i < |lists[u]| ensures !Overlaps(Lower(s.name), u, lists[u][i].name) {
        ColonFreeNamesApart(Lower(s.name), u, lists[u][i].name, lists[u][i].name);
      }
    }
  }

  lemma DeleteStep(e: Engine, db: Str, table: Str, selection: Option<Expr>, platform: Platform)
    requires EngineInStep(e) && Lower(db) == SRRDB
    ensures EngineInStep(ExecDelete(e, db, table, selection, platform).engine)
  {
    if ExecDelete(e, db, table, selection, platform).result.Ok? {
      DeleteKeepsStep(e.defs.databases[SRRDB], e.store, table, selection, platform);
    }
  }

  lemma UpdateStep(e: Engine, db: Str, table: Str, assignments: seq<Assignment>, selection: Option<Expr>,
      platform: Platform)
    requires EngineInStep(e) && Lower(db) == SRRDB
    ensures EngineInStep(ExecUpdate(e, db, table, assignments, selection, platform).engine)
  {
    if ExecUpdate(e, db, table, assignments, selection, platform).result.Ok? {
      var targets := Targets(GetTable(e.defs, db, table).value.columns, assignments).value;
      UpdateKeepsStep(e.defs.databases[SRRDB], e.store, table, selection, targets, platform);
    }
  }

  lemma InsertStep(e: Engine, db: Str, table: Str, names: seq<Str>, source: Source, now: u64)
    requires EngineInStep(e) && Lower(db) == SRRDB
    ensures EngineInStep(ExecInsert(e, db, table, names, source, now).engine)
  {
    if ExecInsert(e, db, table, names, source, now).result.Ok? {
      var columns := GetTable(e.defs, db, table).value.columns;
      var f := FillRows(e.defs, table, columns, MapRows(columns, names, source.rows).value, now);
      InsertKeepsStep(e.defs.databases[SRRDB], e.store, table, f.rows);
    }
  }

  /** A run on "srrdb" whose statements neither die nor break the step, each judged by the state before it. */
  ghost predicate Tidy(db: Str, statements: seq<Statement>, platform: Platform) {
    && Lower(db) == SRRDB
    && NoPanic(db, statements, platform)
    && forall k :: 0 <= k < |statements| ==> !Breaks(Run(db, statements[..k], platform), db, statements[k])
  }

  lemma TidyPrefix(db: Str, statements: seq<Statement>, platform: Platform, n: nat)
    requires Tidy(db, statements, platform) && n <= |statements|
    ensures Tidy(db, statements[..n], platform)
  {
    PrefixNoPanic(db, statements, platform, n);
    forall k | 0 <= k < n ensures !Breaks(Run(db, statements[..n][..k], platform), db, statements[..n][k]) {
      assert statements[..n][..k] == statements[..k];
    }
  }

  /** After any such run every index files exactly the rows of its table, each once, under its key. */
  lemma {:induction false} RunInStep(db: Str, statements: seq<Statement>, platform: Platform)
    requires Tidy(db, statements, platform)
    ensures EngineInStep(Run(db, statements, platform))
  {
    if statements != [] {
      var n := |statements| - 1;
      TidyPrefix(db, statements, platform, n);
      RunInStep(db, statements[..n], platform);
      StatementStep(Run(db, statements[..n], platform), db, statements[n], platform);
      assert !Breaks(Run(db, statements[..n], platform), db, statements[n]);
    }
  }

  /** Same keys, and under each key the same ids, without duplicates on either side. */
  ghost predicate SameIndex(a: Postings, b: Postings) {
    && a.lists.Keys == b.lists.Keys
    && forall key :: key in a.lists ==> NoDup(a.lists[key]) && NoDup(b.lists[key]) && forall x :: x in a.lists[key] <==> x in b.lists[key]
  }

  lemma ExactIndexesAgree(a: Postings, b: Postings, def: IndexDef, columns: seq<Column>, t: Table)
    requires Exact(a, def, columns, t) && Exact(b, def, columns, t)
    ensures SameIndex(a, b)
  {
    forall key: Key, x: nat ensures x in Ids(a, key) <==> x in Ids(b, key) {
      assert x in Ids(a, key) <==> x in t && KeyOf(def, columns, t[x].values) == key;
      assert x in Ids(b, key) <==> x in t && KeyOf(def, columns, t[x].values) == key;
    }
    forall key: Key ensures key in a.lists <==> key in b.lists {
      if key in a.lists {
        assert a.lists[key][0] in Ids(a, key);
        assert a.lists[key][0] in Ids(b, key);
      }
      if key in b.lists {
        assert b.lists[key][0] in Ids(b, key);
        assert b.lists[key][0] in Ids(a, key);
      }
    }
    forall key | key in a.lists ensures NoDup(a.lists[key]) && NoDup(b.lists[key]) && forall x :: x in a.lists[key] <==> x in b.lists[key] {
      assert a.lists[key] == Ids(a, key) && b.lists[key] == Ids(b, key);
    }
  }

  /** After any such run, each maintained index is the index that a rebuild from the table would make. */
  lemma MaintainedIsRebuilt(db: Str, statements: seq<Statement>, platform: Platform, tn: Str, i: nat)
    requires Tidy(db, statements, platform)
    ensures var e := Run(db, statements, platform);
            SRRDB in e.defs.databases &&
            var d := e.defs.databases[SRRDB];
            tn in d.tables && tn in d.indexes && i < |d.indexes[tn]| ==>
              && EntryName(tn, d.indexes[tn][i].name) in e.store.indexData
              && SameIndex(e.store.indexData[EntryName(tn, d.indexes[tn][i].name)],
                           BuildIndex(d.indexes[tn][i], d.tables[tn].columns, GetRows(e.store, tn)))
  {
    RunInStep(db, statements, platform);
    var e := Run(db, statements, platform);
    var d := e.defs.databases[SRRDB];
    if tn in d.tables && i < |d.indexes[tn]| {
      assert TableInStep(d, e.store, tn);
      TableIsWf(e.store, tn);
      ValuesOfWf(TableOf(e.store, tn), NextOf(e.store, tn));
      RebuildAgrees(e.store, tn, d.indexes[tn][i], d.tables[tn].columns, GetRows(e.store, tn));
    }
  }

  lemma RebuildAgrees(s: Store, tn: Str, def: IndexDef, columns: seq<Column>, rows: seq<Row>)
    requires NoEmptyLists(s.indexData) && Enumerates(rows, TableOf(s, tn))
    requires InStep(s.indexData, EntryName(tn, def.name), def, columns, TableOf(s, tn))
    ensures SameIndex(s.indexData[EntryName(tn, def.name)], BuildIndex(def, columns, rows))
  {
    var entry := EntryName(tn, def.name);
    BuildIndexIsExact(def, columns, TableOf(s, tn), rows);
    ExactInStep(s.indexData, entry, def, columns, TableOf(s, tn));
    ExactIndexesAgree(s.indexData[entry], BuildIndex(def, columns, rows), def, columns, TableOf(s, tn));
  }
}
