/**
  * The fallback of `start` in `src/server/listener.rs`: the saved catalog and tables are loaded and the log, which the
  * program never truncates, is replayed over them. The saved tables already hold what the log inserts.
  */
module Restart {
  import opened Prelude
  import opened Types
  import opened Index
  import opened Storage
  import opened Catalog
  import opened WalEntries
  import opened Where
  import opened Engine
  import opened Recovery

  predicate HasTable(i: Image, tn: Str) {
    SRRDB in i.defs.databases && tn in i.defs.databases[SRRDB].tables
  }

  // ---- What a running engine logs ------------------------------------------------------------------------------

  /** Rows are logged for known tables only: inserted ones without ids, those of a snapshot under ids of their own. */
  ghost predicate Legal(i: Image, e: WalEntry) {
    match e
    case InsertRows(name, rows) => HasTable(i, Lower(name)) && forall r :: r in rows ==> r.id == 0
    case TableSnapshot(name, rows) => HasTable(i, Lower(name)) && BringIds(rows)
    case _ => true
  }

  ghost predicate LegalLog(log: seq<WalEntry>) {
    forall k :: 0 <= k < |log| ==> Legal(ApplyAll(FreshImage, log[..k]), log[k])
  }

  /** Tables are known under lowercase names, and only known tables have rows. */
  ghost predicate RowsKnown(i: Image) {
    && SRRDB in i.defs.databases && WfStore(i.store)
    && (forall tn :: HasTable(i, tn) ==> Lower(tn) == tn)
    && forall tn :: tn in i.store.tables ==> HasTable(i, tn)
  }

  lemma ValuesBringIds(t: Table, next: nat)
    requires WfTable(t, next)
    ensures BringIds(Values(t))
  {
    ValuesOfWf(t, next);
    forall i | 0 <= i < |Values(t)| ensures Values(t)[i].id != 0 {
      assert Values(t)[i] in Values(t);
    }
  }

  lemma SnapshotIsLegal(i: Image, e: Engine, table: Str, s: Store, changed: nat)
    requires i.defs.databases == e.defs.databases && HasTable(i, Lower(table))
    requires WfStore(s)
    ensures var after := WithSnapshot(e.(store := s), table, changed);
            after.log == e.log || (after.log == e.log + [TableSnapshot(table, GetRows(s, table))] && Legal(i, TableSnapshot(table, GetRows(s, table))))
  {
    ValuesBringIds(TableOf(s, table), NextOf(s, table));
  }

  ghost predicate LogsLegally(i: Image, e: Engine, after: Engine) {
    after.log == e.log || (|after.log| == |e.log| + 1 && after.log[..|e.log|] == e.log && Legal(i, after.log[|e.log|]))
  }

  lemma DeleteIsLegal(i: Image, e: Engine, db: Str, table: Str, selection: Option<Expr>, platform: Platform)
    requires SameImage(i, e) && WfStore(e.store) && Lower(db) == SRRDB
    ensures LogsLegally(i, e, ExecDelete(e, db, table, selection, platform).engine)
  {
    if ExecDelete(e, db, table, selection, platform).result.Ok? {
      DeleteSimulates(i, e, db, table, selection, platform);
      var columns := GetTable(e.defs, db, table).value.columns;
      var n := |ChosenRows(TableOf(e.store, table), selection, columns, platform)|;
      SnapshotIsLegal(i, e, table, DeleteRows(e.store, table, selection, TableIndexes(e.defs, db, table), columns, platform), n);
    }
  }

  lemma UpdateIsLegal(i: Image, e: Engine, db: Str, table: Str, assignments: seq<Assignment>, selection: Option<Expr>,
      platform: Platform)
    requires SameImage(i, e) && WfStore(e.store) && Lower(db) == SRRDB
    ensures LogsLegally(i, e, ExecUpdate(e, db, table, assignments, selection, platform).engine)
  {
    if ExecUpdate(e, db, table, assignments, selection, platform).result.Ok? {
      UpdateSimulates(i, e, db, table, assignments, selection, platform);
      var columns := GetTable(e.defs, db, table).value.columns;
      var targets := Targets(columns, assignments).value;
      var n := |ChosenRows(TableOf(e.store, table), selection, columns, platform)|;
      SnapshotIsLegal(i, e, table, UpdateRows(e.store, table, selection, targets, TableIndexes(e.defs, db, table), columns, platform), n);
    }
  }

  lemma InsertIsLegal(i: Image, e: Engine, db: Str, table: Str, names: seq<Str>, source: Source, now: u64)
    requires SameImage(i, e) && Lower(db) == SRRDB
    ensures LogsLegally(i, e, ExecInsert(e, db, table, names, source, now).engine)
  {
  }

  /** Statements about definitions log no rows. */
  lemma DefinitionIsLegal(i: Image, e: Engine, db: Str, s: Statement, platform: Platform)
    requires SameImage(i, e) && WfStore(e.store) && Lower(db) == SRRDB
    requires !s.InsertStmt? && !s.DeleteStmt? && !s.UpdateStmt?
    ensures LogsLegally(i, e, Exec(e, db, s, platform).engine)
  {
    match s {
      case CreateTableStmt(name, columns, ifNotExists) => assert LogsLegally(i, e, ExecCreateTable(e, db, name, columns, ifNotExists).engine);
      case DropTableStmt(name, ifExists) => assert LogsLegally(i, e, ExecDropTable(e, db, name, ifExists).engine);
      case CreateIndexStmt(table, name, kind, columns, unique) =>
        assert LogsLegally(i, e, ExecCreateIndex(e, db, table, name, kind, columns, unique).engine);
      case DropIndexStmt(name, ifExists, order) => assert LogsLegally(i, e, ExecDropIndex(e, db, name, ifExists, order).engine);
    }
  }

  lemma StatementIsLegal(i: Image, e: Engine, db: Str, s: Statement, platform: Platform)
    requires SameImage(i, e) && WfStore(e.store) && Lower(db) == SRRDB
    ensures LogsLegally(i, e, Exec(e, db, s, platform).engine)
  {
    match s {
      case InsertStmt(table, names, source, now) => InsertIsLegal(i, e, db, table, names, source, now);
      case DeleteStmt(table, selection) => DeleteIsLegal(i, e, db, table, selection, platform);
      case UpdateStmt(table, assignments, selection) => UpdateIsLegal(i, e, db, table, assignments, selection, platform);
      case _ => DefinitionIsLegal(i, e, db, s, platform);
    }
  }

  lemma LegalMore(log: seq<WalEntry>, e: WalEntry)
    requires LegalLog(log) && Legal(ApplyAll(FreshImage, log), e)
    ensures LegalLog(log + [e])
  {
    forall k | 0 <= k < |log + [e]| ensures Legal(ApplyAll(FreshImage, (log + [e])[..k]), (log + [e])[k]) {
      assert (log + [e])[..k] == log[..k];
      assert k == |log| ==> log[..k] == log;
    }
  }

  lemma LogStaysLegal(e: Engine, after: Engine)
    requires LegalLog(e.log) && LogsLegally(ApplyAll(FreshImage, e.log), e, after)
    ensures LegalLog(after.log)
  {
    if after.log != e.log {
      assert after.log == e.log + [after.log[|e.log|]];
      LegalMore(e.log, after.log[|e.log|]);
    }
  }

  lemma StatementKeepsLegal(e: Engine, after: Engine, db: Str, s: Statement, platform: Platform)
    requires LegalLog(e.log) && SameImage(ApplyAll(FreshImage, e.log), e) && WfStore(e.store) && Lower(db) == SRRDB
    requires after == Exec(e, db, s, platform).engine
    ensures LegalLog(after.log)
  {
    StatementIsLegal(ApplyAll(FreshImage, e.log), e, db, s, platform);
    LogStaysLegal(e, after);
  }

  lemma OneMoreIsLegal(db: Str, before: seq<Statement>, last: Statement, platform: Platform)
    requires Lower(db) == SRRDB && NoPanic(db, before, platform) && LegalLog(Run(db, before, platform).log)
    ensures LegalLog(Exec(Run(db, before, platform), db, last, platform).engine.log)
  {
    ReplayRecoversRun(db, before, platform);
    var e := Run(db, before, platform);
    StatementKeepsLegal(e, Exec(e, db, last, platform).engine, db, last, platform);
  }

  /** A run logs rows for tables only that its log has created by then. */
  lemma {:induction false} RunLogIsLegal(db: Str, statements: seq<Statement>, platform: Platform)
    requires Lower(db) == SRRDB && NoPanic(db, statements, platform)
    ensures LegalLog(Run(db, statements, platform).log)
  {
    if statements != [] {
      var before := statements[..|statements| - 1];
      PrefixNoPanic(db, statements, platform, |statements| - 1);
      RunLogIsLegal(db, before, platform);
      OneMoreIsLegal(db, before, statements[|statements| - 1], platform);
    }
  }

  lemma LegalPrefix(log: seq<WalEntry>, n: nat)
    requires LegalLog(log) && n <= |log|
    ensures LegalLog(log[..n])
  {
    forall k | 0 <= k < n ensures Legal(ApplyAll(FreshImage, log[..n][..k]), log[..n][k]) {
      assert log[..n][..k] == log[..k];
    }
  }

  lemma LegalKeepsKnown(i: Image, e: WalEntry)
    requires RowsKnown(i) && Legal(i, e)
    ensures RowsKnown(Apply(i, e))
  {
    ApplyKeepsWf(i, e);
    assert Lower(SRRDB) == SRRDB;
    if e.CreateTable? {
      LowerIdempotent(e.tableName);
    }
  }

  lemma {:induction false} FreshReplayKnown(log: seq<WalEntry>)
    requires LegalLog(log)
    ensures RowsKnown(ApplyAll(FreshImage, log))
  {
    if log != [] {
      var n := |log| - 1;
      LegalPrefix(log, n);
      FreshReplayKnown(log[..n]);
      LegalKeepsKnown(ApplyAll(FreshImage, log[..n]), log[n]);
    }
  }

  // ---- Words about a log ------------------------------------------------------------------------------------------

  predicate IsDrop(e: WalEntry, tn: Str) {
    e.DropTable? && Lower(e.tableName) == tn
  }

  predicate Drops(log: seq<WalEntry>, tn: Str) {
    exists k :: 0 <= k < |log| && IsDrop(log[k], tn)
  }

  predicate IsSnapshot(e: WalEntry, tn: Str) {
    e.TableSnapshot? && Lower(e.tableName) == tn
  }

  predicate Snapshots(log: seq<WalEntry>, tn: Str) {
    exists k :: 0 <= k < |log| && IsSnapshot(log[k], tn)
  }

  predicate AddsRows(e: WalEntry, tn: Str) {
    e.InsertRows? && Lower(e.tableName) == tn && e.rows != []
  }

  /** Rows of `tn` are inserted and no snapshot of it follows. */
  predicate InsertsBehind(log: seq<WalEntry>, tn: Str) {
    exists k :: 0 <= k < |log| && AddsRows(log[k], tn) && !Snapshots(log[k..], tn)
  }

  lemma WordsOfMore(log: seq<WalEntry>, e: WalEntry, tn: Str)
    ensures Drops(log + [e], tn) <==> Drops(log, tn) || IsDrop(e, tn)
    ensures Snapshots(log + [e], tn) <==> Snapshots(log, tn) || IsSnapshot(e, tn)
    ensures InsertsBehind(log + [e], tn) <==> AddsRows(e, tn) || (InsertsBehind(log, tn) && !IsSnapshot(e, tn))
  {
    var more, n := log + [e], |log|;
    assert more[n] == e && forall k :: 0 <= k < n ==> more[k] == log[k];
    forall k | 0 <= k < n ensures Snapshots(more[k..], tn) <==> Snapshots(log[k..], tn) || IsSnapshot(e, tn) {
      SnapshotsOfMore(log[k..], e, tn);
      assert more[k..] == log[k..] + [e];
    }
    if AddsRows(e, tn) {
      assert more[n..] == [e];
      assert !Snapshots(more[n..], tn);
    }
    if InsertsBehind(log, tn) && !IsSnapshot(e, tn) {
      var k :| 0 <= k < n && AddsRows(log[k], tn) && !Snapshots(log[k..], tn);
      assert AddsRows(more[k], tn) && !Snapshots(more[k..], tn);
    }
    SnapshotsOfMore(log, e, tn);
  }

  lemma SnapshotsOfMore(log: seq<WalEntry>, e: WalEntry, tn: Str)
    ensures Snapshots(log + [e], tn) <==> Snapshots(log, tn) || IsSnapshot(e, tn)
  {
    var more := log + [e];
    assert more[|log|] == e && forall k :: 0 <= k < |log| ==> more[k] == log[k];
  }

  // ---- One entry on two images ------------------------------------------------------------------------------------

  /** Both know the table or neither does, and it has the same rows and the same counter. */
  ghost predicate Agree(i: Image, o: Image, tn: Str) {
    && (HasTable(i, tn) <==> HasTable(o, tn))
    && TableOf(i.store, tn) == TableOf(o.store, tn) && NextOf(i.store, tn) == NextOf(o.store, tn)
  }

  /** A table that is not known has neither rows nor a counter. */
  ghost predicate BlankUnlessKnown(i: Image, tn: Str) {
    SRRDB in i.defs.databases && (!HasTable(i, tn) ==> TableOf(i.store, tn) == map[] && NextOf(i.store, tn) == 1)
  }

  /** `o` knows the table if `i` does. */
  ghost predicate Ahead(i: Image, o: Image, tn: Str) {
    && BlankUnlessKnown(i, tn) && BlankUnlessKnown(o, tn)
    && (HasTable(i, tn) ==> HasTable(o, tn))
  }

  lemma ElsewhereSame(i: Image, e: WalEntry, tn: Str)
    requires Lower(tn) == tn && SRRDB in i.defs.databases && !Touches(e, tn)
    ensures SRRDB in Apply(i, e).defs.databases
    ensures TableOf(Apply(i, e).store, tn) == TableOf(i.store, tn) && NextOf(Apply(i, e).store, tn) == NextOf(i.store, tn)
    ensures HasTable(Apply(i, e), tn) <==> HasTable(i, tn) || (e.CreateTable? && Lower(e.tableName) == tn)
  {
    assert Lower(SRRDB) == SRRDB;
  }

  lemma DropBlanks(i: Image, e: WalEntry, tn: Str)
    requires Lower(tn) == tn && BlankUnlessKnown(i, tn) && IsDrop(e, tn)
    ensures var after := Apply(i, e);
            SRRDB in after.defs.databases && !HasTable(after, tn) && TableOf(after.store, tn) == map[] && NextOf(after.store, tn) == 1
  {
    assert Lower(SRRDB) == SRRDB;
    LowerIdempotent(e.tableName);
  }

  lemma RowsEntry(i: Image, e: WalEntry, tn: Str)
    requires Lower(tn) == tn && (e.InsertRows? || e.TableSnapshot?) && Lower(e.tableName) == tn
    ensures Apply(i, e).defs == i.defs
    ensures var t := if e.InsertRows? then TableOf(i.store, tn) else map[];
            var p := PlaceAll(t, NextOf(i.store, tn), e.rows);
            TableOf(Apply(i, e).store, tn) == p.table && NextOf(Apply(i, e).store, tn) == p.next
  {
  }

  /** The drop of a table brings the two images together on it, known there or not; */
  lemma EntryOnAhead(i: Image, o: Image, e: WalEntry, tn: Str)
    requires Lower(tn) == tn && Ahead(i, o, tn) && Legal(i, e)
    ensures Ahead(Apply(i, e), Apply(o, e), tn)
    ensures IsDrop(e, tn) || Agree(i, o, tn) ==> Agree(Apply(i, e), Apply(o, e), tn)
  {
    if !Touches(e, tn) {
      ElsewhereSame(i, e, tn);
      ElsewhereSame(o, e, tn);
    } else if e.DropTable? {
      DropBlanks(i, e, tn);
      DropBlanks(o, e, tn);
    } else {
      RowsEntry(i, e, tn);
      RowsEntry(o, e, tn);
    }
  }

  /** and from there on they stay together. */
  lemma {:induction false} DropBringsTogether(base: Image, log: seq<WalEntry>, tn: Str)
    requires LegalLog(log) && Lower(tn) == tn && BlankUnlessKnown(base, tn)
    ensures Ahead(ApplyAll(FreshImage, log), ApplyAll(base, log), tn)
    ensures Drops(log, tn) ==> Agree(ApplyAll(FreshImage, log), ApplyAll(base, log), tn)
  {
    if log != [] {
      var n := |log| - 1;
      LegalPrefix(log, n);
      DropBringsTogether(base, log[..n], tn);
      assert log == log[..n] + [log[n]];
      WordsOfMore(log[..n], log[n], tn);
      EntryOnAhead(ApplyAll(FreshImage, log[..n]), ApplyAll(base, log[..n]), log[n], tn);
    }
  }

  // ---- Tables that are never dropped --------------------------------------------------------------------------------

  /** Until the first snapshot the saved rows stand beside those of the log; a snapshot replaces both. */
  ghost predicate Beside(clean: Store, over: Store, saved: Table, log: seq<WalEntry>, tn: Str) {
    && |TableOf(over, tn)| == |TableOf(clean, tn)| + (if Snapshots(log, tn) then 0 else |saved|)
    && (!InsertsBehind(log, tn) ==> if Snapshots(log, tn) then TableOf(over, tn) == TableOf(clean, tn) else TableOf(over, tn) == saved && TableOf(clean, tn) == map[])
  }

  /** Ids from `next` on are new, and an insert behind the last snapshot has left one. */
  ghost predicate Renumbered(over: Store, next: nat, log: seq<WalEntry>, tn: Str) {
    && next <= NextOf(over, tn)
    && (InsertsBehind(log, tn) ==> exists x :: x in TableOf(over, tn) && x >= next)
  }

  lemma TouchAddsBeside(clean: Image, over: Image, saved: Table, log: seq<WalEntry>, e: WalEntry, tn: Str)
    requires Lower(tn) == tn && WfStore(clean.store) && WfStore(over.store)
    requires Legal(clean, e) && Touches(e, tn) && !IsDrop(e, tn)
    requires Beside(clean.store, over.store, saved, log, tn)
    ensures Beside(Apply(clean, e).store, Apply(over, e).store, saved, log + [e], tn)
  {
    WordsOfMore(log, e, tn);
    RowsEntry(clean, e, tn);
    RowsEntry(over, e, tn);
    if e.InsertRows? {
      FreshRowsAdd(TableOf(clean.store, tn), NextOf(clean.store, tn), e.rows);
      FreshRowsAdd(TableOf(over.store, tn), NextOf(over.store, tn), e.rows);
    } else {
      SnapshotFixesTable(clean.store, e.tableName, e.rows);
      SnapshotFixesTable(over.store, e.tableName, e.rows);
      HoldsExactlyUnique(TableOf(Apply(clean, e).store, tn), TableOf(Apply(over, e).store, tn), e.rows);
    }
  }

  lemma TouchRenumbers(over: Image, next: nat, log: seq<WalEntry>, e: WalEntry, tn: Str)
    requires Lower(tn) == tn && WfStore(over.store) && Touches(e, tn) && !IsDrop(e, tn)
    requires e.InsertRows? ==> forall r :: r in e.rows ==> r.id == 0
    requires e.TableSnapshot? ==> BringIds(e.rows)
    requires Renumbered(over.store, next, log, tn)
    ensures Renumbered(Apply(over, e).store, next, log + [e], tn)
  {
    WordsOfMore(log, e, tn);
    RowsEntry(over, e, tn);
    var t, counter := TableOf(over.store, tn), NextOf(over.store, tn);
    if e.InsertRows? {
      FreshRows(t, counter, e.rows);
      if e.rows != [] {
        assert counter in PlaceAll(t, counter, e.rows).table;
      } else if InsertsBehind(log, tn) {
        var x :| x in t && x >= next;
        assert x in PlaceAll(t, counter, e.rows).table;
      }
    } else {
      ExplicitCounter(map[], counter, e.rows);
    }
  }

  lemma {:induction false} WithoutDrop(base: Image, log: seq<WalEntry>, tn: Str)
    requires LegalLog(log) && Lower(tn) == tn && WfStore(base.store) && SRRDB in base.defs.databases && !Drops(log, tn)
    ensures Beside(ApplyAll(FreshImage, log).store, ApplyAll(base, log).store, TableOf(base.store, tn), log, tn)
    ensures Renumbered(ApplyAll(base, log).store, NextOf(base.store, tn), log, tn)
    ensures SRRDB in ApplyAll(base, log).defs.databases
  {
    if log != [] {
      var n := |log| - 1;
      var init, e := log[..n], log[n];
      assert log == init + [e];
      LegalPrefix(log, n);
      WordsOfMore(init, e, tn);
      WithoutDrop(base, init, tn);
      FreshReplayKnown(init);
      ReplayKeepsWf(base, init);
      if Touches(e, tn) {
        TouchAddsBeside(ApplyAll(FreshImage, init), ApplyAll(base, init), TableOf(base.store, tn), init, e, tn);
        TouchRenumbers(ApplyAll(base, init), NextOf(base.store, tn), init, e, tn);
      } else {
        ElsewhereSame(ApplyAll(FreshImage, init), e, tn);
        ElsewhereSame(ApplyAll(base, init), e, tn);
      }
    }
  }

  // ---- Restart over saved tables -------------------------------------------------------------------------------------

  /** What `start` loads: the tables of the catalog with the rows they had, and nothing for other names. */
  ghost predicate Saved(base: Image, e: Engine) {
    && RowsKnown(base)
    && (forall tn :: HasTable(base, tn) <==> HasTable(Image(e.defs, e.store), tn))
    && forall tn :: TableOf(base.store, tn) == TableOf(e.store, tn)
  }

  /** What a run has when it ends is such an image. */
  lemma RunIsSaved(db: Str, statements: seq<Statement>, platform: Platform)
    requires Lower(db) == SRRDB && NoPanic(db, statements, platform)
    ensures Saved(Image(Run(db, statements, platform).defs, Run(db, statements, platform).store), Run(db, statements, platform))
  {
    ReplayRecoversRun(db, statements, platform);
    RunLogIsLegal(db, statements, platform);
    FreshReplayKnown(Run(db, statements, platform).log);
  }

  /** The loading loop: every table in the order met, if there is a file of its rows. */
  function Loaded(order: seq<Str>, files: map<Str, Table>): Store {
    if order == [] then EmptyStore
    else
      var tn := order[|order| - 1];
      var before := Loaded(order[..|order| - 1], files);
      if tn in files then Inserted(before, tn, Values(files[tn])) else before
  }

  lemma {:induction false} LoadedTables(order: seq<Str>, s: Store)
    requires NoDup(order) && WfStore(s) && forall tn :: tn in order ==> Lower(tn) == tn
    ensures var l := Loaded(order, s.tables);
            && WfStore(l)
            && (forall tn :: tn in l.tables <==> tn in order && tn in s.tables)
            && forall tn :: tn in l.tables ==> l.tables[tn] == s.tables[tn]
  {
    if order != [] {
      var n := |order| - 1;
      var tn, before := order[n], Loaded(order[..n], s.tables);
      LoadedTables(order[..n], s);
      assert order == order[..n] + [tn];
      if tn in s.tables {
        ValuesOfWf(s.tables[tn], s.nextIds[tn]);
        ReinsertRestores(s.tables[tn], Values(s.tables[tn]), 1);
        InsertedKeepsWf(before, tn, Values(s.tables[tn]));
        assert TableOf(before, tn) == map[] && NextOf(before, tn) == 1;
      }
    }
  }

  /**
    * So is what the loading loop makes of the run's table files, whatever the order, over a catalog with the run's
    * tables.
    */
  lemma LoadedIsSaved(db: Str, statements: seq<Statement>, platform: Platform, defs: Definitions, order: seq<Str>)
    requires Lower(db) == SRRDB && NoPanic(db, statements, platform) && NoDup(order) && SRRDB in defs.databases
    requires forall tn :: tn in defs.databases[SRRDB].tables <==> HasTable(Image(Run(db, statements, platform).defs, EmptyStore), tn)
    requires forall tn :: tn in order <==> tn in defs.databases[SRRDB].tables
    ensures Saved(Image(defs, Loaded(order, Run(db, statements, platform).store.tables)), Run(db, statements, platform))
  {
    var e := Run(db, statements, platform);
    RunIsSaved(db, statements, platform);
    LoadedTables(order, e.store);
    var base := Image(defs, Loaded(order, e.store.tables));
    forall tn: Str ensures TableOf(base.store, tn) == TableOf(e.store, tn) {
      assert Lower(tn) in e.store.tables ==> HasTable(Image(e.defs, e.store), Lower(tn));
    }
  }

  lemma SavedIsBlankUnlessKnown(base: Image, tn: Str)
    requires RowsKnown(base) && Lower(tn) == tn
    ensures BlankUnlessKnown(base, tn)
  {
  }

  /**
    * Replaying a run's log over the tables the run saved gives a table back, row for row, exactly when the log drops it
    * or inserts no row into it behind its last snapshot.
    */
  lemma RestartRestoresTable(db: Str, statements: seq<Statement>, platform: Platform, base: Image, table: Str)
    requires Lower(db) == SRRDB && NoPanic(db, statements, platform) && Saved(base, Run(db, statements, platform))
    ensures var e := Run(db, statements, platform);
            TableOf(ApplyAll(base, e.log).store, table) == TableOf(e.store, table)
            <==> Drops(e.log, Lower(table)) || !InsertsBehind(e.log, Lower(table))
  {
    var e, tn := Run(db, statements, platform), Lower(table);
    LowerIdempotent(table);
    ReplayRecoversRun(db, statements, platform);
    RunLogIsLegal(db, statements, platform);
    assert TableOf(ApplyAll(FreshImage, e.log).store, tn) == TableOf(e.store, tn) == TableOf(base.store, tn);
    if Drops(e.log, tn) {
      SavedIsBlankUnlessKnown(base, tn);
      DropBringsTogether(base, e.log, tn);
    } else {
      WithoutDrop(base, e.log, tn);
      if InsertsBehind(e.log, tn) {
        var x :| x in TableOf(ApplyAll(base, e.log).store, tn) && x >= NextOf(base.store, tn);
        assert WfTable(TableOf(base.store, tn), NextOf(base.store, tn));
      }
    }
  }

  /** Without a drop and without a snapshot every row is there twice; with a snapshot the number of rows is right. */
  lemma RestartDoublesRows(db: Str, statements: seq<Statement>, platform: Platform, base: Image, table: Str)
    requires Lower(db) == SRRDB && NoPanic(db, statements, platform) && Saved(base, Run(db, statements, platform))
    requires !Drops(Run(db, statements, platform).log, Lower(table))
    ensures var e := Run(db, statements, platform);
            |TableOf(ApplyAll(base, e.log).store, table)| == (if Snapshots(e.log, Lower(table)) then 1 else 2) * |TableOf(e.store, table)|
  {
    var e, tn := Run(db, statements, platform), Lower(table);
    LowerIdempotent(table);
    ReplayRecoversRun(db, statements, platform);
    RunLogIsLegal(db, statements, platform);
    WithoutDrop(base, e.log, tn);
    assert TableOf(ApplyAll(FreshImage, e.log).store, tn) == TableOf(e.store, tn) == TableOf(base.store, tn);
  }
}
