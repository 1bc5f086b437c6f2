/**
  * Keeping the indexes of a table in step with its rows (`insert_into_indexes_raw`, `delete_from_indexes_raw` in
  * `src/engine/executor.rs`).
  */
module Maintenance {
  import opened Prelude
  import opened Types
  import opened Index
  import opened Storage
  import opened Catalog

  type Entries = map<Str, Postings>

  /** `get_index_key`. */
  function KeyOf(def: IndexDef, columns: seq<Column>, values: seq<Value>): Key {
    seq(|def.columns|, i requires 0 <= i < |def.columns| => Cell(columns, def.columns[i], values))
  }

  /** The ids filed under `key` in the named entry. */
  function Filed(data: Entries, entry: Str, key: Key): seq<nat> {
    if entry in data then Ids(data[entry], key) else []
  }

  function FileOne(data: Entries, tn: Str, def: IndexDef, columns: seq<Column>, row: Row): Entries {
    var entry := EntryName(tn, def.name);
    var ix := if entry in data then data[entry] else Postings(def.indexType, map[]);
    data[entry := Add(ix, KeyOf(def, columns, row.values), row.id)]
  }

  function FileRow(data: Entries, tn: Str, defs: seq<IndexDef>, columns: seq<Column>, row: Row): Entries {
    if defs == [] then data
    else FileOne(FileRow(data, tn, defs[..|defs| - 1], columns, row), tn, defs[|defs| - 1], columns, row)
  }

  function FileRows(data: Entries, tn: Str, defs: seq<IndexDef>, columns: seq<Column>, rows: seq<Row>): Entries {
    if rows == [] then data
    else FileRow(FileRows(data, tn, defs, columns, rows[..|rows| - 1]), tn, defs, columns, rows[|rows| - 1])
  }

  function UnfileOne(data: Entries, tn: Str, def: IndexDef, columns: seq<Column>, row: Row): Entries {
    var entry := EntryName(tn, def.name);
    if entry in data then data[entry := Remove(data[entry], KeyOf(def, columns, row.values), row.id)] else data
  }

  function UnfileRow(data: Entries, tn: Str, defs: seq<IndexDef>, columns: seq<Column>, row: Row): Entries {
    if defs == [] then data
    else UnfileOne(UnfileRow(data, tn, defs[..|defs| - 1], columns, row), tn, defs[|defs| - 1], columns, row)
  }

  function UnfileRows(data: Entries, tn: Str, defs: seq<IndexDef>, columns: seq<Column>, rows: seq<Row>): Entries {
    if rows == [] then data
    else UnfileRow(UnfileRows(data, tn, defs, columns, rows[..|rows| - 1]), tn, defs, columns, rows[|rows| - 1])
  }

  ghost predicate NoEmptyLists(data: Entries) {
    forall e :: e in data ==> NoEmptyList(data[e])
  }

  /** Entries other than those of `defs` are untouched. */
  ghost predicate SameElsewhere(before: Entries, after: Entries, tn: Str, defs: seq<IndexDef>) {
    forall e :: (forall i :: 0 <= i < |defs| ==> e != EntryName(tn, defs[i].name)) ==>
                  (e in before <==> e in after) && (e in before ==> before[e] == after[e])
  }

  /** `after` has `id` added under `at`, and nothing else in that entry differs. */
  ghost predicate Files(before: Entries, after: Entries, entry: Str, at: Key, id: nat) {
    && entry in after
    && forall key :: Filed(after, entry, key) == if key == at then Filed(before, entry, key) + [id] else Filed(before, entry, key)
  }

  /** `after` has every copy of `id` under `at` taken out, and nothing else in that entry differs. */
  ghost predicate Unfiles(before: Entries, after: Entries, entry: Str, at: Key, id: nat) {
    forall key ::
      && (forall x :: x in Filed(after, entry, key) <==> x in Filed(before, entry, key) && !(key == at && x == id))
      && (NoDup(Filed(before, entry, key)) ==> NoDup(Filed(after, entry, key)))
  }

  lemma EntryNamesAgree(tn: Str, a: Str, b: Str)
    ensures EntryName(tn, a) == EntryName(tn, b) <==> SameName(a, b)
  {
    assert EntryName(tn, a)[|tn| + 1..] == Lower(a) && EntryName(tn, b)[|tn| + 1..] == Lower(b);
  }

  ghost predicate SameBut(before: Entries, after: Entries, entry: Str) {
    forall e :: e != entry ==> (e in before <==> e in after) && (e in before ==> before[e] == after[e])
  }

  lemma FileOneEffect(data: Entries, tn: Str, def: IndexDef, columns: seq<Column>, row: Row)
    ensures var after := FileOne(data, tn, def, columns, row);
            && SameBut(data, after, EntryName(tn, def.name))
            && Files(data, after, EntryName(tn, def.name), KeyOf(def, columns, row.values), row.id)
            && (NoEmptyLists(data) ==> NoEmptyLists(after))
  {
    var entry := EntryName(tn, def.name);
    var ix := if entry in data then data[entry] else Postings(def.indexType, map[]);
    AddEffect(ix, KeyOf(def, columns, row.values), row.id);
  }

  lemma UnfileOneEffect(data: Entries, tn: Str, def: IndexDef, columns: seq<Column>, row: Row)
    ensures var after := UnfileOne(data, tn, def, columns, row);
            && after.Keys == data.Keys
            && SameBut(data, after, EntryName(tn, def.name))
            && Unfiles(data, after, EntryName(tn, def.name), KeyOf(def, columns, row.values), row.id)
            && (NoEmptyLists(data) ==> NoEmptyLists(after))
  {
    var entry := EntryName(tn, def.name);
    if entry in data {
      RemoveEffect(data[entry], KeyOf(def, columns, row.values), row.id);
    }
  }

  ghost predicate SameAt(before: Entries, after: Entries, entry: Str) {
    (entry in before <==> entry in after) && (entry in before ==> before[entry] == after[entry])
  }

  lemma FilesFramed(a: Entries, b: Entries, c: Entries, d: Entries, entry: Str, at: Key, id: nat)
    requires SameAt(a, b, entry) && Files(b, c, entry, at, id) && SameAt(c, d, entry)
    ensures Files(a, d, entry, at, id)
  {
    forall key: Key ensures Filed(a, entry, key) == Filed(b, entry, key) && Filed(c, entry, key) == Filed(d, entry, key) { }
  }

  lemma UnfilesFramed(a: Entries, b: Entries, c: Entries, d: Entries, entry: Str, at: Key, id: nat)
    requires SameAt(a, b, entry) && Unfiles(b, c, entry, at, id) && SameAt(c, d, entry)
    ensures Unfiles(a, d, entry, at, id)
  {
    forall key: Key ensures Filed(a, entry, key) == Filed(b, entry, key) && Filed(c, entry, key) == Filed(d, entry, key) { }
  }

  lemma ElsewhereExtends(a: Entries, b: Entries, c: Entries, tn: Str, defs: seq<IndexDef>)
    requires defs != []
    requires SameElsewhere(a, b, tn, defs[..|defs| - 1]) && SameBut(b, c, EntryName(tn, defs[|defs| - 1].name))
    ensures SameElsewhere(a, c, tn, defs)
  {
    forall e | forall i :: 0 <= i < |defs| ==> e != EntryName(tn, defs[i].name) ensures SameAt(a, c, e) {
      var init := defs[..|defs| - 1];
      assert e != EntryName(tn, defs[|defs| - 1].name);
      forall i | 0 <= i < |init| ensures e != EntryName(tn, init[i].name) {
        assert init[i] == defs[i];
        assert e != EntryName(tn, defs[i].name);
      }
    }
  }

  lemma LastIsElsewhere(a: Entries, b: Entries, tn: Str, defs: seq<IndexDef>)
    requires defs != [] && DistinctNames(defs)
    requires SameElsewhere(a, b, tn, defs[..|defs| - 1])
    ensures SameAt(a, b, EntryName(tn, defs[|defs| - 1].name))
  {
    var init := defs[..|defs| - 1];
    forall i | 0 <= i < |init| ensures EntryName(tn, defs[|defs| - 1].name) != EntryName(tn, init[i].name) {
      assert init[i] == defs[i];
      EntryNamesAgree(tn, defs[i].name, defs[|defs| - 1].name);
    }
  }

  /** Every index of the table has the row's id added under the row's key. */
  ghost predicate AllFile(before: Entries, after: Entries, tn: Str, defs: seq<IndexDef>, columns: seq<Column>,
      row: Row) {
    forall i :: 0 <= i < |defs| ==> Files(before, after, EntryName(tn, defs[i].name), KeyOf(defs[i], columns, row.values), row.id)
  }

  ghost predicate AllUnfile(before: Entries, after: Entries, tn: Str, defs: seq<IndexDef>, columns: seq<Column>,
      row: Row) {
    forall i :: 0 <= i < |defs| ==> Unfiles(before, after, EntryName(tn, defs[i].name), KeyOf(defs[i], columns, row.values), row.id)
  }

  lemma EarlierIsElsewhere(tn: Str, defs: seq<IndexDef>, i: nat, mid: Entries, after: Entries)
    requires DistinctNames(defs) && i < |defs| - 1 && SameBut(mid, after, EntryName(tn, defs[|defs| - 1].name))
    ensures SameAt(mid, after, EntryName(tn, defs[i].name))
  {
    EntryNamesAgree(tn, defs[i].name, defs[|defs| - 1].name);
  }

  lemma EarlierFiles(data: Entries, mid: Entries, after: Entries, tn: Str, defs: seq<IndexDef>, columns: seq<Column>,
      row: Row,
      i: nat)
    requires DistinctNames(defs) && i < |defs| - 1
    requires AllFile(data, mid, tn, defs[..|defs| - 1], columns, row) && SameBut(mid, after, EntryName(tn, defs[|defs| - 1].name))
    ensures Files(data, after, EntryName(tn, defs[i].name), KeyOf(defs[i], columns, row.values), row.id)
  {
    assert defs[..|defs| - 1][i] == defs[i];
    EarlierIsElsewhere(tn, defs, i, mid, after);
    FilesFramed(data, data, mid, after, EntryName(tn, defs[i].name), KeyOf(defs[i], columns, row.values), row.id);
  }

  lemma NewestFiles(data: Entries, mid: Entries, after: Entries, tn: Str, defs: seq<IndexDef>, at: Key, id: nat)
    requires defs != [] && DistinctNames(defs) && SameElsewhere(data, mid, tn, defs[..|defs| - 1])
    requires Files(mid, after, EntryName(tn, defs[|defs| - 1].name), at, id)
    ensures Files(data, after, EntryName(tn, defs[|defs| - 1].name), at, id)
  {
    LastIsElsewhere(data, mid, tn, defs);
    FilesFramed(data, mid, after, after, EntryName(tn, defs[|defs| - 1].name), at, id);
  }

  lemma OneMoreFiles(data: Entries, mid: Entries, after: Entries, tn: Str, defs: seq<IndexDef>, columns: seq<Column>,
      row: Row)
    requires defs != [] && DistinctNames(defs)
    requires AllFile(data, mid, tn, defs[..|defs| - 1], columns, row) && SameElsewhere(data, mid, tn, defs[..|defs| - 1])
    requires SameBut(mid, after, EntryName(tn, defs[|defs| - 1].name))
    requires Files(mid, after, EntryName(tn, defs[|defs| - 1].name), KeyOf(defs[|defs| - 1], columns, row.values), row.id)
    ensures AllFile(data, after, tn, defs, columns, row)
  {
    var n := |defs| - 1;
    forall i | 0 <= i < |defs| ensures Files(data, after, EntryName(tn, defs[i].name), KeyOf(defs[i], columns, row.values), row.id) {
      if i < n {
        EarlierFiles(data, mid, after, tn, defs, columns, row, i);
      } else {
        NewestFiles(data, mid, after, tn, defs, KeyOf(defs[n], columns, row.values), row.id);
      }
    }
  }

  lemma EarlierUnfiles(data: Entries, mid: Entries, after: Entries, tn: Str, defs: seq<IndexDef>,
      columns: seq<Column>, row: Row,
      i: nat)
    requires DistinctNames(defs) && i < |defs| - 1
    requires AllUnfile(data, mid, tn, defs[..|defs| - 1], columns, row) && SameBut(mid, after, EntryName(tn, defs[|defs| - 1].name))
    ensures Unfiles(data, after, EntryName(tn, defs[i].name), KeyOf(defs[i], columns, row.values), row.id)
  {
    assert defs[..|defs| - 1][i] == defs[i];
    EarlierIsElsewhere(tn, defs, i, mid, after);
    UnfilesFramed(data, data, mid, after, EntryName(tn, defs[i].name), KeyOf(defs[i], columns, row.values), row.id);
  }

  lemma NewestUnfiles(data: Entries, mid: Entries, after: Entries, tn: Str, defs: seq<IndexDef>, at: Key, id: nat)
    requires defs != [] && DistinctNames(defs) && SameElsewhere(data, mid, tn, defs[..|defs| - 1])
    requires Unfiles(mid, after, EntryName(tn, defs[|defs| - 1].name), at, id)
    ensures Unfiles(data, after, EntryName(tn, defs[|defs| - 1].name), at, id)
  {
    LastIsElsewhere(data, mid, tn, defs);
    UnfilesFramed(data, mid, after, after, EntryName(tn, defs[|defs| - 1].name), at, id);
  }

  lemma OneMoreUnfiles(data: Entries, mid: Entries, after: Entries, tn: Str, defs: seq<IndexDef>, columns: seq<Column>,
      row: Row)
    requires defs != [] && DistinctNames(defs)
    requires AllUnfile(data, mid, tn, defs[..|defs| - 1], columns, row) && SameElsewhere(data, mid, tn, defs[..|defs| - 1])
    requires SameBut(mid, after, EntryName(tn, defs[|defs| - 1].name))
    requires Unfiles(mid, after, EntryName(tn, defs[|defs| - 1].name), KeyOf(defs[|defs| - 1], columns, row.values), row.id)
    ensures AllUnfile(data, after, tn, defs, columns, row)
  {
    var n := |defs| - 1;
    forall i | 0 <= i < |defs| ensures Unfiles(data, after, EntryName(tn, defs[i].name), KeyOf(defs[i], columns, row.values), row.id) {
      if i < n {
        EarlierUnfiles(data, mid, after, tn, defs, columns, row, i);
      } else {
        NewestUnfiles(data, mid, after, tn, defs, KeyOf(defs[n], columns, row.values), row.id);
      }
    }
  }

  lemma LastFiles(mid: Entries, after: Entries, tn: Str, defs: seq<IndexDef>, columns: seq<Column>, row: Row)
    requires defs != [] && after == FileOne(mid, tn, defs[|defs| - 1], columns, row)
    ensures SameBut(mid, after, EntryName(tn, defs[|defs| - 1].name))
    ensures Files(mid, after, EntryName(tn, defs[|defs| - 1].name), KeyOf(defs[|defs| - 1], columns, row.values), row.id)
    ensures NoEmptyLists(mid) ==> NoEmptyLists(after)
  {
    FileOneEffect(mid, tn, defs[|defs| - 1], columns, row);
  }

  lemma LastUnfiles(mid: Entries, after: Entries, tn: Str, defs: seq<IndexDef>, columns: seq<Column>, row: Row)
    requires defs != [] && after == UnfileOne(mid, tn, defs[|defs| - 1], columns, row)
    ensures SameBut(mid, after, EntryName(tn, defs[|defs| - 1].name))
    ensures Unfiles(mid, after, EntryName(tn, defs[|defs| - 1].name), KeyOf(defs[|defs| - 1], columns, row.values), row.id)
    ensures after.Keys == mid.Keys && (NoEmptyLists(mid) ==> NoEmptyLists(after))
  {
    UnfileOneEffect(mid, tn, defs[|defs| - 1], columns, row);
  }

  /** Filing a row in the indexes of its table: one id more under its key in each, nothing else. */
  lemma {:induction false} FileRowEffect(data: Entries, tn: Str, defs: seq<IndexDef>, columns: seq<Column>, row: Row)
    requires DistinctNames(defs)
    ensures var after := FileRow(data, tn, defs, columns, row);
            && SameElsewhere(data, after, tn, defs)
            && (NoEmptyLists(data) ==> NoEmptyLists(after))
            && AllFile(data, after, tn, defs, columns, row)
  {
    if defs != [] {
      var init := defs[..|defs| - 1];
      FileRowEffect(data, tn, init, columns, row);
      var mid, after := FileRow(data, tn, init, columns, row), FileRow(data, tn, defs, columns, row);
      LastFiles(mid, after, tn, defs, columns, row);
      OneMoreFiles(data, mid, after, tn, defs, columns, row);
      ElsewhereExtends(data, mid, after, tn, defs);
    }
  }

  /** Unfiling a row: its id gone from under its key in each index of the table, nothing else. */
  lemma {:induction false} UnfileRowEffect(data: Entries, tn: Str, defs: seq<IndexDef>, columns: seq<Column>, row: Row)
    requires DistinctNames(defs)
    ensures var after := UnfileRow(data, tn, defs, columns, row);
            && after.Keys == data.Keys
            && SameElsewhere(data, after, tn, defs)
            && (NoEmptyLists(data) ==> NoEmptyLists(after))
            && AllUnfile(data, after, tn, defs, columns, row)
  {
    if defs != [] {
      var init := defs[..|defs| - 1];
      UnfileRowEffect(data, tn, init, columns, row);
      var mid, after := UnfileRow(data, tn, init, columns, row), UnfileRow(data, tn, defs, columns, row);
      LastUnfiles(mid, after, tn, defs, columns, row);
      OneMoreUnfiles(data, mid, after, tn, defs, columns, row);
      ElsewhereExtends(data, mid, after, tn, defs);
    }
  }

  // ---- Several rows --------------------------------------------------------------------

  /** One of `rows` has id `x` and its key is `key`. */
  ghost predicate Held(rows: seq<Row>, def: IndexDef, columns: seq<Column>, key: Key, x: nat) {
    exists j :: 0 <= j < |rows| && rows[j].id == x && KeyOf(def, columns, rows[j].values) == key
  }

  lemma HeldSplit(rows: seq<Row>, def: IndexDef, columns: seq<Column>, key: Key, x: nat)
    requires rows != []
    ensures var init, last := rows[..|rows| - 1], rows[|rows| - 1];
            Held(rows, def, columns, key, x)
            <==> Held(init, def, columns, key, x) || (last.id == x && KeyOf(def, columns, last.values) == key)
  {
    var init := rows[..|rows| - 1];
    if Held(rows, def, columns, key, x) {
      var j :| 0 <= j < |rows| && rows[j].id == x && KeyOf(def, columns, rows[j].values) == key;
      if j < |init| {
        assert init[j] == rows[j];
      }
    }
    if Held(init, def, columns, key, x) {
      var j :| 0 <= j < |init| && init[j].id == x && KeyOf(def, columns, init[j].values) == key;
      assert rows[j] == init[j];
    }
  }

  lemma ElsewhereTransitive(a: Entries, b: Entries, c: Entries, tn: Str, defs: seq<IndexDef>)
    requires SameElsewhere(a, b, tn, defs) && SameElsewhere(b, c, tn, defs)
    ensures SameElsewhere(a, c, tn, defs)
  {
  }

  lemma {:induction false} FileRowsFrame(data: Entries, tn: Str, defs: seq<IndexDef>, columns: seq<Column>,
      rows: seq<Row>)
    requires DistinctNames(defs)
    ensures var after := FileRows(data, tn, defs, columns, rows);
            && SameElsewhere(data, after, tn, defs)
            && (NoEmptyLists(data) ==> NoEmptyLists(after))
            && data.Keys <= after.Keys
  {
    if rows != [] {
      var init := rows[..|rows| - 1];
      var mid := FileRows(data, tn, defs, columns, init);
      FileRowsFrame(data, tn, defs, columns, init);
      FileRowEffect(mid, tn, defs, columns, rows[|rows| - 1]);
      ElsewhereTransitive(data, mid, FileRows(data, tn, defs, columns, rows), tn, defs);
      FileRowGrows(mid, tn, defs, columns, rows[|rows| - 1]);
    }
  }

  lemma {:induction false} FileRowGrows(data: Entries, tn: Str, defs: seq<IndexDef>, columns: seq<Column>, row: Row)
    ensures data.Keys <= FileRow(data, tn, defs, columns, row).Keys
  {
    if defs != [] {
      FileRowGrows(data, tn, defs[..|defs| - 1], columns, row);
    }
  }

  /** Filing rows: in each index of the table, their ids are added under their keys, and only those. */
  lemma {:induction false} FileRowsEffect(data: Entries, tn: Str, defs: seq<IndexDef>, columns: seq<Column>,
      rows: seq<Row>, i: nat)
    requires DistinctNames(defs) && i < |defs|
    ensures var after, entry := FileRows(data, tn, defs, columns, rows), EntryName(tn, defs[i].name);
            && (rows != [] ==> entry in after)
            && (forall key, x :: x in Filed(after, entry, key) <==> x in Filed(data, entry, key) || Held(rows, defs[i], columns, key, x))
  {
    if rows != [] {
      var init, last := rows[..|rows| - 1], rows[|rows| - 1];
      var mid, after := FileRows(data, tn, defs, columns, init), FileRows(data, tn, defs, columns, rows);
      FileRowsEffect(data, tn, defs, columns, init, i);
      FileRowEffect(mid, tn, defs, columns, last);
      var entry := EntryName(tn, defs[i].name);
      assert Files(mid, after, entry, KeyOf(defs[i], columns, last.values), last.id);
      forall key: Key, x: nat
        ensures x in Filed(after, entry, key) <==> x in Filed(data, entry, key) || Held(rows, defs[i], columns, key, x)
      {
        HeldSplit(rows, defs[i], columns, key, x);
      }
    }
  }

  /** The ids of `rows` are distinct and none is filed yet: no posting list gets a duplicate. */
  lemma {:induction false} FileRowsNoDup(data: Entries, tn: Str, defs: seq<IndexDef>, columns: seq<Column>,
      rows: seq<Row>, i: nat)
    requires DistinctNames(defs) && i < |defs|
    requires forall key :: NoDup(Filed(data, EntryName(tn, defs[i].name), key))
    requires forall key, j :: 0 <= j < |rows| ==> rows[j].id !in Filed(data, EntryName(tn, defs[i].name), key)
    requires forall j, k :: 0 <= j < k < |rows| ==> rows[j].id != rows[k].id
    ensures forall key :: NoDup(Filed(FileRows(data, tn, defs, columns, rows), EntryName(tn, defs[i].name), key))
  {
    if rows != [] {
      var init, last := rows[..|rows| - 1], rows[|rows| - 1];
      var mid, after := FileRows(data, tn, defs, columns, init), FileRows(data, tn, defs, columns, rows);
      var entry := EntryName(tn, defs[i].name);
      FileRowsNoDup(data, tn, defs, columns, init, i);
      FileRowsEffect(data, tn, defs, columns, init, i);
      FileRowEffect(mid, tn, defs, columns, last);
      assert Files(mid, after, entry, KeyOf(defs[i], columns, last.values), last.id);
      forall key: Key ensures NoDup(Filed(after, entry, key)) {
        if last.id in Filed(mid, entry, key) {
          assert Held(init, defs[i], columns, key, last.id);
        }
      }
    }
  }

  lemma {:induction false} UnfileRowsFrame(data: Entries, tn: Str, defs: seq<IndexDef>, columns: seq<Column>,
      rows: seq<Row>)
    requires DistinctNames(defs)
    ensures var after := UnfileRows(data, tn, defs, columns, rows);
            && after.Keys == data.Keys
            && SameElsewhere(data, after, tn, defs)
            && (NoEmptyLists(data) ==> NoEmptyLists(after))
  {
    if rows != [] {
      var init := rows[..|rows| - 1];
      var mid := UnfileRows(data, tn, defs, columns, init);
      UnfileRowsFrame(data, tn, defs, columns, init);
      UnfileRowEffect(mid, tn, defs, columns, rows[|rows| - 1]);
      ElsewhereTransitive(data, mid, UnfileRows(data, tn, defs, columns, rows), tn, defs);
    }
  }

  /** Unfiling rows: in each index of the table, their ids are gone from under their keys, and only those. */
  lemma {:induction false} UnfileRowsEffect(data: Entries, tn: Str, defs: seq<IndexDef>, columns: seq<Column>,
      rows: seq<Row>, i: nat)
    requires DistinctNames(defs) && i < |defs|
    ensures var after, entry := UnfileRows(data, tn, defs, columns, rows), EntryName(tn, defs[i].name);
            && (forall key, x :: x in Filed(after, entry, key) <==> x in Filed(data, entry, key) && !Held(rows, defs[i], columns, key, x))
            && (forall key :: NoDup(Filed(data, entry, key)) ==> NoDup(Filed(after, entry, key)))
  {
    if rows != [] {
      var init, last := rows[..|rows| - 1], rows[|rows| - 1];
      var mid, after := UnfileRows(data, tn, defs, columns, init), UnfileRows(data, tn, defs, columns, rows);
      UnfileRowsEffect(data, tn, defs, columns, init, i);
      UnfileRowEffect(mid, tn, defs, columns, last);
      var entry := EntryName(tn, defs[i].name);
      assert Unfiles(mid, after, entry, KeyOf(defs[i], columns, last.values), last.id);
      forall key: Key, x: nat
        ensures x in Filed(after, entry, key) <==> x in Filed(data, entry, key) && !Held(rows, defs[i], columns, key, x)
      {
        HeldSplit(rows, defs[i], columns, key, x);
      }
    }
  }
}
