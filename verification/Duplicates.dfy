/** How often an id stands in a posting list while INSERTs are halfway, and so how often a SELECT returns its row. */
module Duplicates {
  import opened Prelude
  import opened Types
  import opened Index
  import opened Storage
  import opened Catalog
  import opened Maintenance
  import opened Where
  import opened Engine
  import opened Sections
  import opened Coherence
  import opened Select
  import opened Concurrency

  // ---- The index half of an INSERT -------------------------------------------------------------------------

  function TimesHeld(rows: seq<Row>, def: IndexDef, columns: seq<Column>, key: Key, x: nat): nat {
    if rows == [] then 0
    else
      var last := rows[|rows| - 1];
      TimesHeld(rows[..|rows| - 1], def, columns, key, x) + if last.id == x && KeyOf(def, columns, last.values) == key then 1 else 0
  }

  /** Filing rows adds one copy of an id for every row of that id and key. */
  lemma {:induction false} FileRowsCounts(data: Entries, tn: Str, defs: seq<IndexDef>, columns: seq<Column>,
      rows: seq<Row>, i: nat, key: Key, x: nat)
    requires DistinctNames(defs) && i < |defs|
    ensures var after, entry := FileRows(data, tn, defs, columns, rows), EntryName(tn, defs[i].name);
            multiset(Filed(after, entry, key))[x] == multiset(Filed(data, entry, key))[x] + TimesHeld(rows, defs[i], columns, key, x)
  {
    if rows != [] {
      var init, last := rows[..|rows| - 1], rows[|rows| - 1];
      var mid, after := FileRows(data, tn, defs, columns, init), FileRows(data, tn, defs, columns, rows);
      FileRowsCounts(data, tn, defs, columns, init, i, key, x);
      FileRowEffect(mid, tn, defs, columns, last);
      assert Files(mid, after, EntryName(tn, defs[i].name), KeyOf(defs[i], columns, last.values), last.id);
    }
  }

  lemma {:induction false} FoundOnce(s: Store, table: Str, ids: seq<nat>, def: IndexDef, columns: seq<Column>,
      key: Key, x: nat)
    requires NoDup(ids)
    ensures TimesHeld(FoundRows(s, table, ids), def, columns, key, x)
         == if x in ids && KeyOf(def, columns, FoundRow(s, table, x).values) == key then 1 else 0
  {
    if ids != [] {
      var n := |ids| - 1;
      FoundOnce(s, table, ids[..n], def, columns, key, x);
      assert FoundRows(s, table, ids)[..n] == FoundRows(s, table, ids[..n]);
      assert ids == ids[..n] + [ids[n]];
    }
  }

  lemma TwiceCounted(s: seq<nat>, i: nat, j: nat)
    requires i < j < |s|
    ensures s[i] == s[j] ==> multiset(s)[s[j]] >= 2
  {
    assert s == s[..j] + [s[j]] + s[j + 1..];
    assert s[..j][i] in multiset(s[..j]);
  }

  lemma CountsNoDup(s: seq<nat>)
    requires forall x :: multiset(s)[x] <= 1
    ensures NoDup(s)
  {
    forall i, j | 0 <= i < j < |s| ensures s[i] != s[j] {
      TwiceCounted(s, i, j);
    }
  }

  lemma CountAfter(s: Store, table: Str, ids: seq<nat>, defs: seq<IndexDef>, columns: seq<Column>, i: nat, key: Key,
      x: nat)
    requires DistinctNames(defs) && i < |defs| && NoDup(ids)
    requires NoDups(s.indexData, EntryName(Lower(table), defs[i].name))
    ensures var before, after := s.indexData, IndexRows(s, table, ids, defs, columns).indexData;
            multiset(Filed(after, EntryName(Lower(table), defs[i].name), key))[x]
            == (if x in Filed(before, EntryName(Lower(table), defs[i].name), key) then 1 else 0)
               + (if x in ids && KeyOf(defs[i], columns, FoundRow(s, table, x).values) == key then 1 else 0)
  {
    NoDupCounts(Filed(s.indexData, EntryName(Lower(table), defs[i].name), key), x);
    FileRowsCounts(s.indexData, Lower(table), defs, columns, FoundRows(s, table, ids), i, key, x);
    FoundOnce(s, table, ids, defs[i], columns, key, x);
  }

  /**
    * The index half of an INSERT makes no duplicate exactly when none of its ids is filed already under the key that
    * its row has by then.
    */
  lemma IndexHalfRepeats(s: Store, table: Str, ids: seq<nat>, defs: seq<IndexDef>, columns: seq<Column>, i: nat)
    requires DistinctNames(defs) && i < |defs| && NoDup(ids)
    requires NoDups(s.indexData, EntryName(Lower(table), defs[i].name))
    ensures NoDups(IndexRows(s, table, ids, defs, columns).indexData, EntryName(Lower(table), defs[i].name))
       <==> forall x :: x in ids ==> x !in Filed(s.indexData, EntryName(Lower(table), defs[i].name), KeyOf(defs[i], columns, FoundRow(s, table, x).values))
  {
    var after, entry := IndexRows(s, table, ids, defs, columns).indexData, EntryName(Lower(table), defs[i].name);
    if NoDups(after, entry) {
      forall x | x in ids ensures x !in Filed(s.indexData, entry, KeyOf(defs[i], columns, FoundRow(s, table, x).values)) {
        var key := KeyOf(defs[i], columns, FoundRow(s, table, x).values);
        NoDupCounts(Filed(after, entry, key), x);
        CountAfter(s, table, ids, defs, columns, i, key, x);
      }
    }
    if forall x :: x in ids ==> x !in Filed(s.indexData, entry, KeyOf(defs[i], columns, FoundRow(s, table, x).values)) {
      forall key: Key ensures NoDup(Filed(after, entry, key)) {
        forall x: nat ensures multiset(Filed(after, entry, key))[x] <= 1 {
          CountAfter(s, table, ids, defs, columns, i, key, x);
        }
        CountsNoDup(Filed(after, entry, key));
      }
    }
  }

  // ---- Schedules in which no UPDATE chooses a row whose INSERT is halfway ---------------------------------------

  ghost predicate Gentle(d: DatabaseDef, sys: System, a: Action, platform: Platform) {
    a.UpdateAction? ==>
      forall x :: x in TableOf(sys.store, a.table) && Selected(a.selection, ColumnsOf(d, a.table), TableOf(sys.store, a.table)[x].values, platform)
                  ==> !IsPending(sys.halfway, Lower(a.table), x)
  }

  ghost predicate GentleSchedule(d: DatabaseDef, from: System, actions: seq<Action>, platform: Platform)
    requires Schedule(d, from, actions, platform)
    decreases |actions|
  {
    actions == [] || (Gentle(d, from, actions[0], platform) && GentleSchedule(d, Next(d, from, actions[0], platform), actions[1..], platform))
  }

  /** No id is given twice, within one INSERT or to two of them. */
  ghost predicate PendingApart(sys: System) {
    && (forall th :: th in sys.halfway ==> NoDup(sys.halfway[th].ids))
    && (forall th, ot :: th in sys.halfway && ot in sys.halfway && th != ot && SameName(sys.halfway[th].table, sys.halfway[ot].table) ==>
                           forall x :: x in sys.halfway[th].ids ==> x !in sys.halfway[ot].ids)
  }

  /** No posting repeats an id, and no pending id is filed yet. */
  ghost predicate FiledApart(sys: System, tn: Str, def: IndexDef) {
    && NoDups(sys.store.indexData, EntryName(tn, def.name))
    && forall key, x :: x in Filed(sys.store.indexData, EntryName(tn, def.name), key) ==> !IsPending(sys.halfway, tn, x)
  }

  ghost predicate Apart(d: DatabaseDef, sys: System) {
    && PendingApart(sys)
    && forall tn, i :: tn in d.tables && tn in d.indexes && 0 <= i < |d.indexes[tn]| ==> FiledApart(sys, tn, d.indexes[tn][i])
  }

  lemma NoLongerPending(d: DatabaseDef, sys: System, a: Action, platform: Platform, u: Str, x: nat)
    requires Enabled(d, sys, a) && IsPending(Next(d, sys, a, platform).halfway, u, x)
    ensures IsPending(sys.halfway, u, x) || (a.StoreAction? && Lower(a.table) == u && x in InsertedIds(sys.store, a.table, a.rows))
  {
    var after := Next(d, sys, a, platform);
    var th :| th in after.halfway && Lower(after.halfway[th].table) == u && x in after.halfway[th].ids;
    if !(a.StoreAction? && th == a.thread) {
      assert th in sys.halfway && sys.halfway[th] == after.halfway[th];
    }
  }

  lemma PendingStaysApart(d: DatabaseDef, sys: System, a: Action, platform: Platform)
    requires WellNamed(d) && Inv(d, sys) && Enabled(d, sys, a) && PendingApart(sys)
    ensures PendingApart(Next(d, sys, a, platform))
  {
    if a.StoreAction? {
      StoredExtends(sys.store, a.table, a.rows);
      var ids := InsertedIds(sys.store, a.table, a.rows);
      forall th, x | th in sys.halfway && SameName(sys.halfway[th].table, a.table) && x in sys.halfway[th].ids ensures x !in ids {
        assert x < NextOf(sys.store, sys.halfway[th].table);
        assert NextOf(sys.store, sys.halfway[th].table) == NextOf(sys.store, a.table);
      }
    }
  }

  lemma StoreKeepsApart(d: DatabaseDef, sys: System, a: Action, platform: Platform, tn: Str, def: IndexDef,
      columns: seq<Column>)
    requires Enabled(d, sys, a) && a.StoreAction? && Lower(a.table) == tn == Lower(tn) && WfStore(sys.store)
    requires IndexSafe(sys, tn, def, columns) && FiledApart(sys, tn, def)
    ensures FiledApart(Next(d, sys, a, platform), tn, def)
  {
    var after := Next(d, sys, a, platform);
    StoredExtends(sys.store, a.table, a.rows);
    forall key: Key, x: nat | x in Filed(after.store.indexData, EntryName(tn, def.name), key) ensures !IsPending(after.halfway, tn, x) {
      assert x < NextOf(sys.store, tn);
      if IsPending(after.halfway, tn, x) {
        NoLongerPending(d, sys, a, platform, tn, x);
      }
    }
  }

  lemma NotPendingElsewhere(sys: System, thread: nat, tn: Str, x: nat)
    requires PendingApart(sys) && thread in sys.halfway && Lower(sys.halfway[thread].table) == tn
    ensures x in sys.halfway[thread].ids || !IsPending(sys.halfway, tn, x) ==> !IsPending(sys.halfway - {thread}, tn, x)
  {
    if IsPending(sys.halfway - {thread}, tn, x) {
      var th :| th in sys.halfway - {thread} && Lower(sys.halfway[th].table) == tn && x in sys.halfway[th].ids;
      assert SameName(sys.halfway[th].table, sys.halfway[thread].table);
    }
  }

  lemma IndexKeepsApart(d: DatabaseDef, sys: System, a: Action, platform: Platform, tn: Str, i: nat)
    requires WellNamed(d) && Enabled(d, sys, a) && a.IndexAction? && Lower(sys.halfway[a.thread].table) == tn
    requires tn in d.tables && i < |d.indexes[tn]| && PendingApart(sys) && FiledApart(sys, tn, d.indexes[tn][i])
    ensures FiledApart(Next(d, sys, a, platform), tn, d.indexes[tn][i])
  {
    var s, h, after, defs, columns := sys.store, sys.halfway[a.thread], Next(d, sys, a, platform), d.indexes[tn], d.tables[tn].columns;
    var entry := EntryName(tn, defs[i].name);
    forall x: nat | x in h.ids ensures IsPending(sys.halfway, tn, x) { }
    IndexHalfRepeats(s, h.table, h.ids, defs, columns, i);
    IndexRowsFiles(s, h.table, h.ids, defs, columns, i);
    assert Gained(s.indexData, after.store.indexData, entry, s, h.table, h.ids, defs[i], columns);
    forall key: Key, x: nat | x in Filed(after.store.indexData, entry, key) ensures !IsPending(after.halfway, tn, x) {
      assert x in Filed(s.indexData, entry, key) || x in h.ids;
      NotPendingElsewhere(sys, a.thread, tn, x);
    }
  }

  lemma DeleteKeepsApart(d: DatabaseDef, sys: System, a: Action, platform: Platform, tn: Str, i: nat)
    requires WellNamed(d) && WfStore(sys.store) && Enabled(d, sys, a) && a.DeleteAction? && Lower(a.table) == tn
    requires tn in d.tables && i < |d.indexes[tn]| && FiledApart(sys, tn, d.indexes[tn][i])
    ensures FiledApart(Next(d, sys, a, platform), tn, d.indexes[tn][i])
  {
    var s, after := sys.store, Next(d, sys, a, platform);
    DeleteUnfiles(s, a.table, a.selection, d.indexes[tn], d.tables[tn].columns, platform, i);
    assert Lost(s.indexData, after.store.indexData, EntryName(tn, d.indexes[tn][i].name), TableOf(s, a.table), a.selection,
                d.tables[tn].columns, platform, d.indexes[tn][i]);
  }

  lemma UpdateKeepsApart(d: DatabaseDef, sys: System, a: Action, platform: Platform, tn: Str, i: nat)
    requires WellNamed(d) && WfStore(sys.store) && Enabled(d, sys, a) && a.UpdateAction? && Lower(a.table) == tn
    requires tn in d.tables && i < |d.indexes[tn]| && FiledApart(sys, tn, d.indexes[tn][i])
    requires IndexSafe(sys, tn, d.indexes[tn][i], d.tables[tn].columns) && Gentle(d, sys, a, platform)
    ensures FiledApart(Next(d, sys, a, platform), tn, d.indexes[tn][i])
  {
    var s, after, t, def, columns := sys.store, Next(d, sys, a, platform), TableOf(sys.store, a.table), d.indexes[tn][i], d.tables[tn].columns;
    UpdateMoves(s, a.table, a.selection, a.targets, d.indexes[tn], columns, platform, i);
    assert TableOf(s, tn) == t;
    assert Moved(s.indexData, after.store.indexData, EntryName(tn, def.name), t, a.selection, columns, a.targets, platform, def);
    forall key: Key, x: nat | x in Filed(after.store.indexData, EntryName(tn, def.name), key) ensures !IsPending(after.halfway, tn, x) {
      if NewHit(t, a.selection, columns, a.targets, platform, def, key, x) {
        assert !IsPending(sys.halfway, tn, x);
      }
    }
  }

  lemma OtherTableApart(d: DatabaseDef, sys: System, a: Action, platform: Platform, tn: Str, def: IndexDef)
    requires Enabled(d, sys, a) && tn != TableTouched(sys, a) && FiledApart(sys, tn, def)
    requires SameAt(sys.store.indexData, Next(d, sys, a, platform).store.indexData, EntryName(tn, def.name))
    ensures FiledApart(Next(d, sys, a, platform), tn, def)
  {
    var after, entry := Next(d, sys, a, platform), EntryName(tn, def.name);
    forall key: Key ensures Filed(after.store.indexData, entry, key) == Filed(sys.store.indexData, entry, key) { }
    forall x: nat | IsPending(after.halfway, tn, x) ensures IsPending(sys.halfway, tn, x) {
      NoLongerPending(d, sys, a, platform, tn, x);
    }
  }

  /** A step that is not such an UPDATE keeps all postings without duplicates, and pending ids out of them. */
  lemma StepKeepsApart(d: DatabaseDef, sys: System, a: Action, platform: Platform)
    requires WellNamed(d) && Inv(d, sys) && Apart(d, sys) && Enabled(d, sys, a) && Gentle(d, sys, a, platform)
    ensures Apart(d, Next(d, sys, a, platform))
  {
    var after, touched := Next(d, sys, a, platform), TableTouched(sys, a);
    StepTouchesOneTable(d, sys, a, platform);
    PendingStaysApart(d, sys, a, platform);
    forall tn, i | tn in d.tables && tn in d.indexes && 0 <= i < |d.indexes[tn]| ensures FiledApart(after, tn, d.indexes[tn][i]) {
      assert FiledApart(sys, tn, d.indexes[tn][i]);
      assert IndexSafe(sys, tn, d.indexes[tn][i], d.tables[tn].columns);
      if tn != touched {
        OtherEntrySame(d, sys.store.indexData, after.store.indexData, touched, tn, i);
        OtherTableApart(d, sys, a, platform, tn, d.indexes[tn][i]);
      } else {
        match a {
          case StoreAction(_, _, _) => StoreKeepsApart(d, sys, a, platform, tn, d.indexes[tn][i], d.tables[tn].columns);
          case IndexAction(_) => IndexKeepsApart(d, sys, a, platform, tn, i);
          case DeleteAction(_, _, _) => DeleteKeepsApart(d, sys, a, platform, tn, i);
          case UpdateAction(_, _, _, _) => UpdateKeepsApart(d, sys, a, platform, tn, i);
        }
      }
    }
  }

  /** Under every such schedule no posting ever repeats an id. */
  lemma {:induction false} GentleScheduleIsApart(d: DatabaseDef, from: System, actions: seq<Action>, platform: Platform)
    requires WellNamed(d) && Inv(d, from) && Apart(d, from)
    requires Schedule(d, from, actions, platform) && GentleSchedule(d, from, actions, platform)
    ensures Apart(d, After(d, from, actions, platform))
    decreases |actions|
  {
    if actions != [] {
      StepKeepsInv(d, from, actions[0], platform);
      StepKeepsApart(d, from, actions[0], platform);
      GentleScheduleIsApart(d, Next(d, from, actions[0], platform), actions[1..], platform);
    }
  }

  lemma InStepStartsApart(d: DatabaseDef, s: Store)
    requires AllInStep(d, s)
    ensures Apart(d, System(s, map[]))
  {
    forall tn, i | tn in d.tables && tn in d.indexes && 0 <= i < |d.indexes[tn]| ensures FiledApart(System(s, map[]), tn, d.indexes[tn][i]) {
      assert TableInStep(d, s, tn);
      assert InStep(s.indexData, EntryName(tn, d.indexes[tn][i].name), d.indexes[tn][i], d.tables[tn].columns, TableOf(s, tn));
    }
  }

  // ---- SELECT -------------------------------------------------------------------------------------------------------

  lemma ApartDoesNotRepeat(d: DatabaseDef, sys: System, table: Str, e: Expr, platform: Platform)
    requires WellNamed(d) && Apart(d, sys) && Lower(table) in d.tables
    ensures !Repeats(sys.store, table, e, IndexesOf(d, table), ColumnsOf(d, table), platform)
  {
    var s, tn := sys.store, Lower(table);
    if IndexLookup(s, table, e, d.indexes[tn]).Some? {
      var p, key := PostingUsed(s, table, e, d.indexes[tn]);
      assert FiledApart(sys, tn, d.indexes[tn][p]);
      forall r: Row ensures multiset(IndexLookup(s, table, e, d.indexes[tn]).value)[r.id] <= 1 {
        NoDupCounts(IndexLookup(s, table, e, d.indexes[tn]).value, r.id);
      }
    }
  }

  /** So at any moment of such a schedule a SELECT returns no row twice; */
  lemma GentleSelectReturnsOnce(d: DatabaseDef, from: System, actions: seq<Action>, platform: Platform, table: Str,
      e: Expr, r: Row)
    requires WellNamed(d) && Inv(d, from) && Apart(d, from) && Lower(table) in d.tables
    requires Schedule(d, from, actions, platform) && GentleSchedule(d, from, actions, platform)
    ensures multiset(SelectRows(After(d, from, actions, platform).store, table, Some(e), IndexesOf(d, table), ColumnsOf(d, table), platform))[r] <= 1
  {
    EveryScheduleIsSafe(d, from, actions, platform);
    GentleScheduleIsApart(d, from, actions, platform);
    var sys := After(d, from, actions, platform);
    ApartDoesNotRepeat(d, sys, table, e, platform);
    var s, defs, columns := sys.store, IndexesOf(d, table), ColumnsOf(d, table);
    ChosenOnce(TableOf(s, table), Some(e), columns, platform, NextOf(s, table), r);
    if IndexLookup(s, table, e, defs).Some? {
      AnswerCounts(s, table, e, defs, columns, platform, r);
    }
  }

  /** and once no INSERT is halfway, the answer through an index is the scan's, row for row. */
  lemma GentleSelectIsScan(d: DatabaseDef, from: System, actions: seq<Action>, platform: Platform, table: Str, e: Expr)
    requires WellNamed(d) && Inv(d, from) && Apart(d, from) && Lower(table) in d.tables
    requires Schedule(d, from, actions, platform) && GentleSchedule(d, from, actions, platform)
    requires After(d, from, actions, platform).halfway == map[]
    requires LiteralExact(TableOf(After(d, from, actions, platform).store, table), e, ColumnsOf(d, table), platform)
    ensures SameRows(After(d, from, actions, platform).store, table, e, IndexesOf(d, table), ColumnsOf(d, table), platform)
  {
    GentleScheduleIsApart(d, from, actions, platform);
    ApartDoesNotRepeat(d, After(d, from, actions, platform), table, e, platform);
    QuietSelectIsScan(d, from, actions, platform, table, e);
  }
}
