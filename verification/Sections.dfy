/** What the critical sections of INSERT, DELETE and UPDATE do to one index of the table, as a relation on (key, id). */
module Sections {
  import opened Prelude
  import opened Types
  import opened Index
  import opened Storage
  import opened Catalog
  import opened Maintenance
  import opened Where
  import opened Engine

  /** Row `x` of `t` is selected and its key is `key`. */
  ghost predicate Hit(t: Table, selection: Option<Expr>, columns: seq<Column>, platform: Platform, def: IndexDef,
      key: Key, x: nat) {
    x in t && Selected(selection, columns, t[x].values, platform) && KeyOf(def, columns, t[x].values) == key
  }

  /** Row `x` of `t` is selected and its key once assigned is `key`. */
  ghost predicate NewHit(t: Table, selection: Option<Expr>, columns: seq<Column>, targets: seq<Target>,
      platform: Platform, def: IndexDef, key: Key, x: nat) {
    x in t && Selected(selection, columns, t[x].values, platform) && KeyOf(def, columns, Assigned(t[x].values, targets)) == key
  }

  /** `chosen` are the selected rows of `t`. */
  ghost predicate Chosen(chosen: seq<Row>, t: Table, selection: Option<Expr>, columns: seq<Column>,
      platform: Platform) {
    && (forall r :: r in chosen <==> r.id in t && t[r.id] == r && Selected(selection, columns, r.values, platform))
    && (forall i, j :: 0 <= i < j < |chosen| ==> chosen[i].id != chosen[j].id)
    && (forall id :: id in t ==> t[id].id == id)
  }

  ghost predicate InIdOrder(rows: seq<Row>) {
    forall i, j :: 0 <= i < j < |rows| ==> rows[i].id < rows[j].id
  }

  lemma {:induction false} FilterIsOrdered(rows: seq<Row>, keep: Row -> bool)
    requires InIdOrder(rows)
    ensures InIdOrder(Filter(rows, keep))
  {
    if rows != [] {
      var init := rows[..|rows| - 1];
      FilterIsOrdered(init, keep);
      FilterMembers(init, keep);
      var kept := Filter(init, keep);
      forall i | 0 <= i < |kept| ensures kept[i].id < rows[|rows| - 1].id {
        assert kept[i] in kept;
        var j :| 0 <= j < |init| && init[j] == kept[i];
        assert rows[j] == init[j];
      }
      assert Filter(rows, keep) == if keep(rows[|rows| - 1]) then kept + [rows[|rows| - 1]] else kept;
    }
  }

  lemma FilteredAreChosen(rows: seq<Row>, t: Table, selection: Option<Expr>, columns: seq<Column>, platform: Platform)
    requires Enumerates(rows, t)
    ensures Chosen(Filter(rows, Chooses(selection, columns, platform)), t, selection, columns, platform)
  {
    FilterMembers(rows, Chooses(selection, columns, platform));
    FilterIsOrdered(rows, Chooses(selection, columns, platform));
  }

  lemma ChosenRowsAreChosen(t: Table, selection: Option<Expr>, columns: seq<Column>, platform: Platform, next: nat)
    requires WfTable(t, next)
    ensures Chosen(ChosenRows(t, selection, columns, platform), t, selection, columns, platform)
  {
    ValuesOfWf(t, next);
    FilteredAreChosen(Values(t), t, selection, columns, platform);
  }

  lemma HeldByChosen(chosen: seq<Row>, t: Table, selection: Option<Expr>, columns: seq<Column>, platform: Platform,
      def: IndexDef, key: Key, x: nat)
    requires Chosen(chosen, t, selection, columns, platform)
    ensures Held(chosen, def, columns, key, x) <==> Hit(t, selection, columns, platform, def, key, x)
  {
    if Hit(t, selection, columns, platform, def, key, x) {
      assert t[x] in chosen;
    }
    if Held(chosen, def, columns, key, x) {
      var j :| 0 <= j < |chosen| && chosen[j].id == x && KeyOf(def, columns, chosen[j].values) == key;
      assert chosen[j] in chosen;
    }
  }

  lemma HeldByAssigned(chosen: seq<Row>, t: Table, selection: Option<Expr>, columns: seq<Column>,
      targets: seq<Target>, platform: Platform, def: IndexDef, key: Key, x: nat)
    requires Chosen(chosen, t, selection, columns, platform)
    ensures Held(AssignedRows(chosen, targets), def, columns, key, x) <==> NewHit(t, selection, columns, targets, platform, def, key, x)
  {
    var rows := AssignedRows(chosen, targets);
    if NewHit(t, selection, columns, targets, platform, def, key, x) {
      assert t[x] in chosen;
      var j :| 0 <= j < |chosen| && chosen[j] == t[x];
      assert rows[j].id == x;
    }
    if Held(rows, def, columns, key, x) {
      var j :| 0 <= j < |rows| && rows[j].id == x && KeyOf(def, columns, rows[j].values) == key;
      assert chosen[j] in chosen;
    }
  }

  lemma HeldByFound(s: Store, table: Str, ids: seq<nat>, def: IndexDef, columns: seq<Column>, key: Key, x: nat)
    ensures Held(FoundRows(s, table, ids), def, columns, key, x)
       <==> x in ids && KeyOf(def, columns, FoundRow(s, table, x).values) == key
  {
    var rows := FoundRows(s, table, ids);
    if x in ids && KeyOf(def, columns, FoundRow(s, table, x).values) == key {
      var j :| 0 <= j < |ids| && ids[j] == x;
      assert rows[j].id == x;
    }
  }

  ghost predicate NoDups(data: Entries, entry: Str) {
    forall key :: NoDup(Filed(data, entry, key))
  }

  ghost predicate Gained(before: Entries, after: Entries, entry: Str, s: Store, table: Str, ids: seq<nat>,
      def: IndexDef, columns: seq<Column>) {
    forall key, x :: x in Filed(after, entry, key)
                     <==> x in Filed(before, entry, key) || (x in ids && KeyOf(def, columns, FoundRow(s, table, x).values) == key)
  }

  ghost predicate Lost(before: Entries, after: Entries, entry: Str, t: Table, selection: Option<Expr>,
      columns: seq<Column>, platform: Platform, def: IndexDef) {
    forall key, x :: x in Filed(after, entry, key) <==> x in Filed(before, entry, key) && !Hit(t, selection, columns, platform, def, key, x)
  }

  ghost predicate Moved(before: Entries, after: Entries, entry: Str, t: Table, selection: Option<Expr>,
      columns: seq<Column>, targets: seq<Target>, platform: Platform, def: IndexDef) {
    forall key, x :: x in Filed(after, entry, key)
                     <==> (x in Filed(before, entry, key) && !Hit(t, selection, columns, platform, def, key, x))
                          || NewHit(t, selection, columns, targets, platform, def, key, x)
  }

  /** INSERT's second section files the given ids under the keys their rows have by then. */
  lemma IndexRowsFiles(s: Store, table: Str, ids: seq<nat>, defs: seq<IndexDef>, columns: seq<Column>, i: nat)
    requires DistinctNames(defs) && i < |defs|
    ensures var after, entry := IndexRows(s, table, ids, defs, columns).indexData, EntryName(Lower(table), defs[i].name);
            Gained(s.indexData, after, entry, s, table, ids, defs[i], columns)
  {
    FileRowsEffect(s.indexData, Lower(table), defs, columns, FoundRows(s, table, ids), i);
    forall key: Key, x: nat
      ensures Held(FoundRows(s, table, ids), defs[i], columns, key, x)
         <==> x in ids && KeyOf(defs[i], columns, FoundRow(s, table, x).values) == key
    {
      HeldByFound(s, table, ids, defs[i], columns, key, x);
    }
  }

  /** DELETE takes the selected rows out from under their keys. */
  lemma DeleteUnfiles(s: Store, table: Str, selection: Option<Expr>, defs: seq<IndexDef>, columns: seq<Column>,
      platform: Platform, i: nat)
    requires WfStore(s) && DistinctNames(defs) && i < |defs|
    ensures var after, entry := DeleteRows(s, table, selection, defs, columns, platform).indexData, EntryName(Lower(table), defs[i].name);
            && Lost(s.indexData, after, entry, TableOf(s, table), selection, columns, platform, defs[i])
            && (NoDups(s.indexData, entry) ==> NoDups(after, entry))
  {
    var t := TableOf(s, table);
    var chosen := ChosenRows(t, selection, columns, platform);
    ChosenRowsAreChosen(t, selection, columns, platform, NextOf(s, table));
    UnfileRowsEffect(s.indexData, Lower(table), defs, columns, chosen, i);
    forall key: Key, x: nat ensures Held(chosen, defs[i], columns, key, x) <==> Hit(t, selection, columns, platform, defs[i], key, x) {
      HeldByChosen(chosen, t, selection, columns, platform, defs[i], key, x);
    }
  }

  /** The selected ids are filed under their own keys only. */
  ghost predicate FiledByKey(data: Entries, entry: Str, t: Table, def: IndexDef, columns: seq<Column>) {
    forall key, x :: x in Filed(data, entry, key) && x in t ==> KeyOf(def, columns, t[x].values) == key
  }

  /** UPDATE moves the selected rows from their old keys to their new ones. */
  lemma UpdateMoves(s: Store, table: Str, selection: Option<Expr>, targets: seq<Target>, defs: seq<IndexDef>,
      columns: seq<Column>, platform: Platform, i: nat)
    requires WfStore(s) && DistinctNames(defs) && i < |defs|
    ensures var t, after, entry := TableOf(s, table), UpdateRows(s, table, selection, targets, defs, columns, platform).indexData, EntryName(Lower(table), defs[i].name);
            && Moved(s.indexData, after, entry, t, selection, columns, targets, platform, defs[i])
            && (NoDups(s.indexData, entry) && FiledByKey(s.indexData, entry, t, defs[i], columns) ==> NoDups(after, entry))
  {
    var t, tn := TableOf(s, table), Lower(table);
    var chosen := ChosenRows(t, selection, columns, platform);
    ChosenRowsAreChosen(t, selection, columns, platform, NextOf(s, table));
    var unfiled, rows := UnfileRows(s.indexData, tn, defs, columns, chosen), AssignedRows(chosen, targets);
    var entry := EntryName(tn, defs[i].name);
    UnfileRowsEffect(s.indexData, tn, defs, columns, chosen, i);
    FileRowsEffect(unfiled, tn, defs, columns, rows, i);
    forall key: Key, x: nat
      ensures Held(chosen, defs[i], columns, key, x) <==> Hit(t, selection, columns, platform, defs[i], key, x)
      ensures Held(rows, defs[i], columns, key, x) <==> NewHit(t, selection, columns, targets, platform, defs[i], key, x)
    {
      HeldByChosen(chosen, t, selection, columns, platform, defs[i], key, x);
      HeldByAssigned(chosen, t, selection, columns, targets, platform, defs[i], key, x);
    }
    if NoDups(s.indexData, entry) && FiledByKey(s.indexData, entry, t, defs[i], columns) {
      forall key: Key, j: nat | j < |rows| ensures rows[j].id !in Filed(unfiled, entry, key) {
        assert chosen[j] in chosen && rows[j].id == chosen[j].id;
      }
      FileRowsNoDup(unfiled, tn, defs, columns, rows, i);
    }
  }

  // ---- Entries of other tables, and empty lists ----------------------------------------------------

  /** No index of `u` is kept under the name of an index of `v`. */
  predicate ListsApart(u: Str, a: seq<IndexDef>, v: Str, b: seq<IndexDef>) {
    forall i, j :: 0 <= i < |a| && 0 <= j < |b| ==> EntryName(u, a[i].name) != EntryName(v, b[j].name)
  }

  /** Every index has an entry of its own. */
  ghost predicate EntriesApart(d: DatabaseDef) {
    forall u, v :: u in d.indexes && v in d.indexes && u != v ==> ListsApart(u, d.indexes[u], v, d.indexes[v])
  }

  /** Tables under their lowercase names, each with distinctly named indexes, every index with an entry of its own. */
  ghost predicate WellNamed(d: DatabaseDef) {
    && d.tables.Keys == d.indexes.Keys
    && (forall tn :: tn in d.tables ==> Lower(tn) == tn && DistinctNames(d.indexes[tn]))
    && EntriesApart(d)
  }

  /** Only entries of the given indexes of `tn` differ, and no list is left empty. */
  ghost predicate OnlyTable(before: Entries, after: Entries, tn: Str, defs: seq<IndexDef>) {
    && before.Keys <= after.Keys
    && (NoEmptyLists(before) ==> NoEmptyLists(after))
    && SameElsewhere(before, after, tn, defs)
  }

  lemma OtherEntrySame(d: DatabaseDef, before: Entries, after: Entries, tn: Str, u: Str, i: nat)
    requires EntriesApart(d) && tn in d.indexes && u in d.indexes && u != tn && i < |d.indexes[u]|
    requires SameElsewhere(before, after, tn, d.indexes[tn])
    ensures SameAt(before, after, EntryName(u, d.indexes[u][i].name))
  {
    assert ListsApart(u, d.indexes[u], tn, d.indexes[tn]);
  }

  lemma IndexRowsOnly(s: Store, table: Str, ids: seq<nat>, defs: seq<IndexDef>, columns: seq<Column>)
    requires DistinctNames(defs)
    ensures OnlyTable(s.indexData, IndexRows(s, table, ids, defs, columns).indexData, Lower(table), defs)
  {
    FileRowsFrame(s.indexData, Lower(table), defs, columns, FoundRows(s, table, ids));
  }

  lemma DeleteRowsOnly(s: Store, table: Str, selection: Option<Expr>, defs: seq<IndexDef>, columns: seq<Column>,
      platform: Platform)
    requires DistinctNames(defs)
    ensures OnlyTable(s.indexData, DeleteRows(s, table, selection, defs, columns, platform).indexData, Lower(table), defs)
  {
    UnfileRowsFrame(s.indexData, Lower(table), defs, columns, ChosenRows(TableOf(s, table), selection, columns, platform));
  }

  lemma UpdateRowsOnly(s: Store, table: Str, selection: Option<Expr>, targets: seq<Target>, defs: seq<IndexDef>,
      columns: seq<Column>, platform: Platform)
    requires DistinctNames(defs)
    ensures OnlyTable(s.indexData, UpdateRows(s, table, selection, targets, defs, columns, platform).indexData, Lower(table), defs)
  {
    var tn := Lower(table);
    var chosen := ChosenRows(TableOf(s, table), selection, columns, platform);
    var unfiled := UnfileRows(s.indexData, tn, defs, columns, chosen);
    var updated := FileRows(unfiled, tn, defs, columns, AssignedRows(chosen, targets));
    UnfileRowsFrame(s.indexData, tn, defs, columns, chosen);
    FileRowsFrame(unfiled, tn, defs, columns, AssignedRows(chosen, targets));
    ElsewhereTransitive(s.indexData, unfiled, updated, tn, defs);
  }
}
