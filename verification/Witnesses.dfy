/**
  * Runs and schedules from the empty engine in which a promise of the program fails: the inputs behind the conditions
  * proved elsewhere. Names are any lowercase names.
  */
module Witnesses {
  import opened Prelude
  import opened Types
  import opened Index
  import opened Storage
  import opened Catalog
  import opened WalEntries
  import opened Maintenance
  import opened Where
  import opened Engine
  import opened Sections
  import opened Recovery
  import opened Coherence
  import opened Select
  import opened Concurrency
  import opened Restart

  /** A column without AUTO_INCREMENT and DEFAULT. */
  function Plain(a: Str, t: Str): Column {
    Column(a, t, 0, 0, 0, 0, 0, false, None)
  }

  /** CREATE TABLE t (a) */
  function MakeTable(t: Str, a: Str): Statement {
    CreateTableStmt(t, [Plain(a, t)], false)
  }

  /** INSERT INTO t VALUES (..), .. */
  function Put(t: Str, rows: seq<seq<Value>>): Statement {
    InsertStmt(t, [], Rows(rows), 0)
  }

  /** CREATE INDEX i ON t (a) */
  function MakeIndex(i: Str, t: Str, a: Str, unique: bool): Statement {
    CreateIndexStmt(t, Some(i), BTree, [a], unique)
  }

  /** a = lit */
  function ColumnEquals(a: Str, lit: Literal): Expr {
    BinaryOp(Identifier(a), Eq, Constant(lit))
  }

  predicate Lowercase(name: Str) {
    Lower(name) == name
  }

  // ---- Statements, one after another ------------------------------------------------------------------------------

  lemma RunMore(statements: seq<Statement>, s: Statement, platform: Platform)
    ensures Run(SRRDB, statements + [s], platform) == Exec(Run(SRRDB, statements, platform), SRRDB, s, platform).engine
  {
    assert (statements + [s])[..|statements|] == statements;
  }

  lemma TidyMore(statements: seq<Statement>, s: Statement, platform: Platform)
    requires Tidy(SRRDB, statements, platform)
    requires !DiesOnShortRow(Run(SRRDB, statements, platform), SRRDB, s) && !Breaks(Run(SRRDB, statements, platform), SRRDB, s)
    ensures Tidy(SRRDB, statements + [s], platform)
  {
    forall k | 0 <= k < |statements + [s]|
      ensures !DiesOnShortRow(Run(SRRDB, (statements + [s])[..k], platform), SRRDB, (statements + [s])[k])
      ensures !Breaks(Run(SRRDB, (statements + [s])[..k], platform), SRRDB, (statements + [s])[k])
    {
      assert (statements + [s])[..k] == statements[..k];
      assert k == |statements| ==> statements[..k] == statements;
    }
  }

  /** The only database is "srrdb", with these tables and indexes. */
  ghost predicate HasSchema(e: Engine, tables: map<Str, TableDef>, indexes: map<Str, seq<IndexDef>>) {
    SRRDB in e.defs.databases && e.defs.databases[SRRDB] == DatabaseDef(SRRDB, tables, indexes)
  }

  lemma TableMade(before: seq<Statement>, t: Str, a: Str, tables: map<Str, TableDef>, indexes: map<Str,
      seq<IndexDef>>, platform: Platform)
    requires Tidy(SRRDB, before, platform) && HasSchema(Run(SRRDB, before, platform), tables, indexes)
    requires Lowercase(t) && t !in tables && t !in indexes
    ensures var statements, e := before + [MakeTable(t, a)], Run(SRRDB, before, platform);
            && Tidy(SRRDB, statements, platform)
            && HasSchema(Run(SRRDB, statements, platform), tables[t := TableDef(t, [Plain(a, t)])], indexes[t := []])
            && Run(SRRDB, statements, platform).store == e.store
            && Run(SRRDB, statements, platform).log == e.log + [CreateTable(t, [Plain(a, t)])]
  {
    assert Lower(SRRDB) == SRRDB;
    RunMore(before, MakeTable(t, a), platform);
    TidyMore(before, MakeTable(t, a), platform);
  }

  lemma NothingRun(platform: Platform)
    ensures Tidy(SRRDB, [], platform) && HasSchema(Run(SRRDB, [], platform), map[], map[])
    ensures Run(SRRDB, [], platform).store == EmptyStore && Run(SRRDB, [], platform).log == []
  {
    assert Lower(SRRDB) == SRRDB;
  }

  // ---- Plain rows -----------------------------------------------------------------------------------------------------

  function Unnumbered(rows: seq<seq<Value>>): (r: seq<Row>)
    ensures |r| == |rows| && forall i :: 0 <= i < |rows| ==> r[i] == Row(0, rows[i])
  {
    if rows == [] then [] else Unnumbered(rows[..|rows| - 1]) + [Row(0, rows[|rows| - 1])]
  }

  predicate AllPlain(columns: seq<Column>) {
    forall i :: 0 <= i < |columns| ==> !columns[i].autoIncrement && columns[i].defaultExpr.None?
  }

  lemma {:induction false} PlainRowStays(c: Definitions, table: Str, columns: seq<Column>, values: seq<Value>,
      last: nat, now: u64, k: nat)
    requires k <= |columns| <= |values| && AllPlain(columns)
    ensures FillRow(c, table, columns, values, last, now, k) == FilledRow(c, values, last)
  {
    if k > 0 {
      PlainRowStays(c, table, columns, values, last, now, k - 1);
    }
  }

  lemma {:induction false} PlainRowsStay(c: Definitions, table: Str, columns: seq<Column>, rows: seq<seq<Value>>,
      now: u64)
    requires FullArity(columns, rows) && AllPlain(columns)
    ensures FillRows(c, table, columns, rows, now) == FilledRows(c, Unnumbered(rows), 0)
    ensures MapRows(columns, [], rows) == Some(rows)
  {
    if rows != [] {
      var n := |rows| - 1;
      PlainRowsStay(c, table, columns, rows[..n], now);
      PlainRowStays(c, table, columns, rows[n], 0, now, |columns|);
      assert rows == rows[..n] + [rows[n]];
    }
  }

  lemma {:induction false} NothingToFile(data: Entries, tn: Str, columns: seq<Column>, rows: seq<Row>)
    ensures FileRows(data, tn, [], columns, rows) == data
  {
    if rows != [] {
      NothingToFile(data, tn, columns, rows[..|rows| - 1]);
    }
  }

  lemma RowsPut(e: Engine, t: Str, columns: seq<Column>, rows: seq<seq<Value>>, platform: Platform)
    requires GetTable(e.defs, SRRDB, t) == Ok(TableDef(t, columns)) && TableIndexes(e.defs, SRRDB, t) == []
    requires AllPlain(columns) && FullArity(columns, rows)
    ensures var after := Exec(e, SRRDB, Put(t, rows), platform).engine;
            && after.defs == e.defs && after.store == StoreRows(e.store, t, Unnumbered(rows))
            && after.log == e.log + [InsertRows(t, Unnumbered(rows))]
    ensures !DiesOnShortRow(e, SRRDB, Put(t, rows))
  {
    PlainRowsStay(e.defs, t, columns, rows, 0);
    var ids := InsertedIds(e.store, t, Unnumbered(rows));
    NothingToFile(e.store.indexData, Lower(t), columns, FoundRows(StoreRows(e.store, t, Unnumbered(rows)), t, ids));
  }

  /** CREATE TABLE t (a); INSERT INTO t VALUES rows */
  function TableWith(t: Str, a: Str, rows: seq<seq<Value>>): seq<Statement> {
    [MakeTable(t, a)] + [Put(t, rows)]
  }

  lemma RowsPutNext(before: seq<Statement>, t: Str, a: Str, rows: seq<seq<Value>>, platform: Platform)
    requires Tidy(SRRDB, before, platform) && Lowercase(t) && forall i :: 0 <= i < |rows| ==> |rows[i]| == 1
    requires HasSchema(Run(SRRDB, before, platform), map[t := TableDef(t, [Plain(a, t)])], map[t := []])
    ensures var statements, e := before + [Put(t, rows)], Run(SRRDB, before, platform);
            && Tidy(SRRDB, statements, platform)
            && HasSchema(Run(SRRDB, statements, platform), map[t := TableDef(t, [Plain(a, t)])], map[t := []])
            && Run(SRRDB, statements, platform).log == e.log + [InsertRows(t, Unnumbered(rows))]
            && Run(SRRDB, statements, platform).store == StoreRows(e.store, t, Unnumbered(rows))
  {
    assert Lower(SRRDB) == SRRDB;
    var e := Run(SRRDB, before, platform);
    RunMore(before, Put(t, rows), platform);
    RowsPut(e, t, [Plain(a, t)], rows, platform);
    assert !Breaks(e, SRRDB, Put(t, rows));
    TidyMore(before, Put(t, rows), platform);
  }

  lemma TableFilled(t: Str, a: Str, rows: seq<seq<Value>>, platform: Platform)
    requires Lowercase(t) && forall i :: 0 <= i < |rows| ==> |rows[i]| == 1
    ensures var e := Run(SRRDB, TableWith(t, a, rows), platform);
            && HasSchema(e, map[t := TableDef(t, [Plain(a, t)])], map[t := []])
            && e.log == [CreateTable(t, [Plain(a, t)])] + [InsertRows(t, Unnumbered(rows))]
            && e.store == StoreRows(EmptyStore, t, Unnumbered(rows))
    ensures Tidy(SRRDB, TableWith(t, a, rows), platform)
  {
    NothingRun(platform);
    TableMade([], t, a, map[], map[], platform);
    assert [] + [MakeTable(t, a)] == [MakeTable(t, a)];
    assert [] + [CreateTable(t, [Plain(a, t)])] == [CreateTable(t, [Plain(a, t)])];
    RowsPutNext([MakeTable(t, a)], t, a, rows, platform);
  }

  lemma FilledRowsAt(t: Str, rows: seq<seq<Value>>)
    ensures var s := StoreRows(EmptyStore, t, Unnumbered(rows));
            && WfStore(s) && |TableOf(s, t)| == |rows|
            && forall x :: 1 <= x <= |rows| ==> x in TableOf(s, t) && TableOf(s, t)[x] == Row(x, rows[x - 1])
  {
    FreshRows(map[], 1, Unnumbered(rows));
    FreshRowsAdd(map[], 1, Unnumbered(rows));
    InsertedKeepsWf(EmptyStore, t, Unnumbered(rows));
    assert TableOf(EmptyStore, t) == map[] && NextOf(EmptyStore, t) == 1;
  }

  // ---- A refused unique index -----------------------------------------------------------------------------------------

  lemma TwoOfOneKey(def: IndexDef, columns: seq<Column>, t: Table, rows: seq<Row>)
    requires Enumerates(rows, t) && 1 in t && 2 in t && t[1].values == t[2].values
    ensures HasDuplicate(def, columns, rows)
  {
    assert t[1] in rows && t[2] in rows;
    var i :| 0 <= i < |rows| && rows[i] == t[1];
    var j :| 0 <= j < |rows| && rows[j] == t[2];
    assert i < j && KeyOf(def, columns, rows[i].values) == KeyOf(def, columns, rows[j].values);
  }

  lemma UniqueIndexRefused(e: Engine, i: Str, t: Str, a: Str, tables: map<Str, TableDef>, indexes: map<Str,
      seq<IndexDef>>, platform: Platform)
    requires EngineInStep(e) && HasSchema(e, tables, indexes)
    requires Lowercase(t) && t in tables && t in indexes && indexes[t] == [] && tables[t].columns == [Plain(a, t)]
    requires HasDuplicate(DefOf(MakeIndex(i, t, a, true)), [Plain(a, t)], GetRows(e.store, t))
    ensures var o := Exec(e, SRRDB, MakeIndex(i, t, a, true), platform);
            o.result == Err(DuplicateEntry) && !EngineInStep(o.engine)
  {
    DuplicateAnswered(e, i, t, a, tables, indexes, platform);
    StatementStep(e, SRRDB, MakeIndex(i, t, a, true), platform);
  }

  lemma DuplicateAnswered(e: Engine, i: Str, t: Str, a: Str, tables: map<Str, TableDef>, indexes: map<Str,
      seq<IndexDef>>, platform: Platform)
    requires HasSchema(e, tables, indexes)
    requires Lowercase(t) && t in tables && t in indexes && indexes[t] == [] && tables[t].columns == [Plain(a, t)]
    requires HasDuplicate(DefOf(MakeIndex(i, t, a, true)), [Plain(a, t)], GetRows(e.store, t))
    ensures Exec(e, SRRDB, MakeIndex(i, t, a, true), platform).result == Err(DuplicateEntry)
    ensures MeetsDuplicate(e, SRRDB, MakeIndex(i, t, a, true)) && Lower(SRRDB) == SRRDB
  {
    assert Lower(SRRDB) == SRRDB;
    assert DefinesIndex(e, SRRDB, MakeIndex(i, t, a, true));
  }

  /**
    * CREATE TABLE t (a); INSERT INTO t VALUES (v), (v) keeps the indexes in step; CREATE UNIQUE INDEX i ON t (a) is
    * refused and does not.
    */
  lemma RefusedIndexStays(t: Str, a: Str, i: Str, v: Value, platform: Platform)
    requires Lowercase(t)
    ensures var before, s := TableWith(t, a, [[v], [v]]), MakeIndex(i, t, a, true);
            && Tidy(SRRDB, before, platform) && EngineInStep(Run(SRRDB, before, platform))
            && Exec(Run(SRRDB, before, platform), SRRDB, s, platform).result == Err(DuplicateEntry)
            && !EngineInStep(Run(SRRDB, before + [s], platform))
  {
    var rows := [[v], [v]];
    var before, s := TableWith(t, a, rows), MakeIndex(i, t, a, true);
    var e := Run(SRRDB, before, platform);
    TableFilled(t, a, rows, platform);
    FilledRowsAt(t, rows);
    RunInStep(SRRDB, before, platform);
    RunMore(before, s, platform);
    ValuesOfWf(TableOf(e.store, t), NextOf(e.store, t));
    TwoOfOneKey(DefOf(s), [Plain(a, t)], TableOf(e.store, t), GetRows(e.store, t));
    UniqueIndexRefused(e, i, t, a, map[t := TableDef(t, [Plain(a, t)])], map[t := []], platform);
  }

  // ---- A number stored as text ----------------------------------------------------------------------------------------

  function PlainIndex(i: Str, t: Str, a: Str): IndexDef {
    IndexDef(i, BTree, t, [a], false)
  }

  lemma PlainIndexMade(e: Engine, i: Str, t: Str, a: Str, tables: map<Str, TableDef>, indexes: map<Str,
      seq<IndexDef>>, platform: Platform)
    requires HasSchema(e, tables, indexes)
    requires Lowercase(t) && t in tables && t in indexes && indexes[t] == [] && tables[t].columns == [Plain(a, t)]
    ensures var after, ix := Exec(e, SRRDB, MakeIndex(i, t, a, false), platform), BuildIndex(PlainIndex(i, t, a), [Plain(a, t)], GetRows(e.store, t));
            && after.result == Ok(Done)
            && HasSchema(after.engine, tables, indexes[t := [PlainIndex(i, t, a)]])
            && after.engine.store == e.store.(indexData := e.store.indexData[EntryName(t, i) := ix])
  {
    assert Lower(SRRDB) == SRRDB;
    assert [] + [PlainIndex(i, t, a)] == [PlainIndex(i, t, a)];
  }

  lemma FreeEntryBreaksNothing(e: Engine, i: Str, t: Str, a: Str, tables: map<Str, TableDef>, indexes: map<Str,
      seq<IndexDef>>)
    requires HasSchema(e, tables, indexes) && Lowercase(t)
    requires FreeEntry(DatabaseDef(SRRDB, tables, indexes), t, i)
    ensures !Breaks(e, SRRDB, MakeIndex(i, t, a, false))
  {
    assert Lower(SRRDB) == SRRDB;
  }

  lemma IndexMade(before: seq<Statement>, i: Str, t: Str, a: Str, tables: map<Str, TableDef>, indexes: map<Str,
      seq<IndexDef>>, platform: Platform)
    requires Tidy(SRRDB, before, platform) && HasSchema(Run(SRRDB, before, platform), tables, indexes)
    requires Lowercase(t) && t in tables && t in indexes && indexes[t] == [] && tables[t].columns == [Plain(a, t)]
    requires FreeEntry(DatabaseDef(SRRDB, tables, indexes), t, i)
    ensures var statements, e := before + [MakeIndex(i, t, a, false)], Run(SRRDB, before, platform);
            && Tidy(SRRDB, statements, platform)
            && HasSchema(Run(SRRDB, statements, platform), tables, indexes[t := [PlainIndex(i, t, a)]])
            && Run(SRRDB, statements, platform).store
               == e.store.(indexData := e.store.indexData[EntryName(t, i) := BuildIndex(PlainIndex(i, t, a), [Plain(a, t)], GetRows(e.store, t))])
  {
    var e := Run(SRRDB, before, platform);
    RunMore(before, MakeIndex(i, t, a, false), platform);
    PlainIndexMade(e, i, t, a, tables, indexes, platform);
    FreeEntryBreaksNothing(e, i, t, a, tables, indexes);
    TidyMore(before, MakeIndex(i, t, a, false), platform);
  }

  lemma KeyOfColumn(def: IndexDef, a: Str, v: Value)
    requires def.columns == [a]
    ensures FullKey(def, map[Lower(a) := v]) == Some([v])
  {
    assert PartialKey(def, map[Lower(a) := v], 0) == Some([]);
    assert [] + [v] == [v];
  }

  lemma IndexOfColumn(s: Store, i: Str, t: Str, a: Str, lit: Literal)
    requires Lowercase(t) && EntryName(t, i) in s.indexData && !lit.OtherLiteral?
    ensures IndexLookup(s, t, ColumnEquals(a, lit), [PlainIndex(i, t, a)])
         == Some(Ids(s.indexData[EntryName(t, i)], [LiteralValue(lit)]))
  {
    var eq := EqConditions(ColumnEquals(a, lit), map[]);
    assert eq == map[Lower(a) := LiteralValue(lit)];
    KeyOfColumn(PlainIndex(i, t, a), a, LiteralValue(lit));
    assert Usable(s.indexData, t, PlainIndex(i, t, a), eq);
  }

  lemma TextMissed(e: Engine, t: Str, a: Str, i: Str, platform: Platform)
    requires EngineInStep(e) && HasSchema(e, map[t := TableDef(t, [Plain(a, t)])], map[t := [PlainIndex(i, t, a)]])
    requires 1 in TableOf(e.store, t) && TableOf(e.store, t)[1] == Row(1, [Text((platform.render)(Int(1)))])
    ensures var s, one, r := e.store, ColumnEquals(a, Number(Int(1))), TableOf(e.store, t)[1];
            && r in ChosenRows(TableOf(s, t), Some(one), [Plain(a, t)], platform)
            && r !in SelectRows(s, t, Some(one), [PlainIndex(i, t, a)], [Plain(a, t)], platform)
            && !SameRows(s, t, one, [PlainIndex(i, t, a)], [Plain(a, t)], platform)
  {
    var d, columns, one := e.defs.databases[SRRDB], [Plain(a, t)], ColumnEquals(a, Number(Int(1)));
    assert t in d.tables;
    assert TableInStep(d, e.store, t);
    assert InStep(e.store.indexData, EntryName(t, d.indexes[t][0].name), d.indexes[t][0], d.tables[t].columns, TableOf(e.store, t));
    IndexOfColumn(e.store, i, t, a, Number(Int(1)));
    assert EqConditions(one, map[]) == map[Lower(a) := Int(1)];
    MissedByIndex(d, e.store, t, one, platform, 1, a, Int(1));
  }

  lemma IndexedTable(before: seq<Statement>, t: Str, a: Str, i: Str, platform: Platform)
    requires Tidy(SRRDB, before, platform) && Lowercase(t)
    requires HasSchema(Run(SRRDB, before, platform), map[t := TableDef(t, [Plain(a, t)])], map[t := []])
    ensures var statements := before + [MakeIndex(i, t, a, false)];
            && Tidy(SRRDB, statements, platform)
            && HasSchema(Run(SRRDB, statements, platform), map[t := TableDef(t, [Plain(a, t)])], map[t := [PlainIndex(i, t, a)]])
            && TableOf(Run(SRRDB, statements, platform).store, t) == TableOf(Run(SRRDB, before, platform).store, t)
  {
    AloneIsFree(t, i, map[t := TableDef(t, [Plain(a, t)])]);
    IndexMade(before, i, t, a, map[t := TableDef(t, [Plain(a, t)])], map[t := []], platform);
    assert map[t := []][t := [PlainIndex(i, t, a)]] == map[t := [PlainIndex(i, t, a)]];
  }

  lemma AloneIsFree(t: Str, i: Str, tables: map<Str, TableDef>)
    ensures FreeEntry(DatabaseDef(SRRDB, tables, map[t := []]), t, i)
  {
  }

  /** CREATE TABLE t (a); INSERT INTO t VALUES (v); CREATE INDEX i ON t (a) */
  function OneRowRun(t: Str, a: Str, i: Str, v: Value): seq<Statement> {
    TableWith(t, a, [[v]]) + [MakeIndex(i, t, a, false)]
  }

  lemma OneRowThere(s: Store, t: Str, v: Value)
    requires s == StoreRows(EmptyStore, t, Unnumbered([[v]]))
    ensures 1 in TableOf(s, t) && TableOf(s, t)[1] == Row(1, [v])
  {
    FilledRowsAt(t, [[v]]);
  }

  lemma OneRowIndexed(t: Str, a: Str, i: Str, v: Value, platform: Platform)
    requires Lowercase(t)
    ensures var e := Run(SRRDB, OneRowRun(t, a, i, v), platform);
            && Tidy(SRRDB, OneRowRun(t, a, i, v), platform) && EngineInStep(e)
            && HasSchema(e, map[t := TableDef(t, [Plain(a, t)])], map[t := [PlainIndex(i, t, a)]])
            && 1 in TableOf(e.store, t) && TableOf(e.store, t)[1] == Row(1, [v])
  {
    TableFilled(t, a, [[v]], platform);
    OneRowThere(Run(SRRDB, TableWith(t, a, [[v]]), platform).store, t, v);
    IndexedInStep(TableWith(t, a, [[v]]), t, a, i, platform);
    assert OneRowRun(t, a, i, v) == TableWith(t, a, [[v]]) + [MakeIndex(i, t, a, false)];
  }

  lemma IndexedInStep(before: seq<Statement>, t: Str, a: Str, i: Str, platform: Platform)
    requires Tidy(SRRDB, before, platform) && Lowercase(t)
    requires HasSchema(Run(SRRDB, before, platform), map[t := TableDef(t, [Plain(a, t)])], map[t := []])
    ensures var statements := before + [MakeIndex(i, t, a, false)];
            && Tidy(SRRDB, statements, platform) && EngineInStep(Run(SRRDB, statements, platform))
            && HasSchema(Run(SRRDB, statements, platform), map[t := TableDef(t, [Plain(a, t)])], map[t := [PlainIndex(i, t, a)]])
            && TableOf(Run(SRRDB, statements, platform).store, t) == TableOf(Run(SRRDB, before, platform).store, t)
  {
    IndexedTable(before, t, a, i, platform);
    RunInStep(SRRDB, before + [MakeIndex(i, t, a, false)], platform);
  }

  /** CREATE TABLE t (a); INSERT INTO t VALUES ('1'); CREATE INDEX i ON t (a) */
  function TextRun(t: Str, a: Str, i: Str, platform: Platform): seq<Statement> {
    OneRowRun(t, a, i, Text((platform.render)(Int(1))))
  }

  /** After that run a scan for a = 1 returns the row and the index does not. */
  lemma TextMissedByIndex(t: Str, a: Str, i: Str, platform: Platform)
    requires Lowercase(t)
    ensures var s, one := Run(SRRDB, TextRun(t, a, i, platform), platform).store, ColumnEquals(a, Number(Int(1)));
            var r := Row(1, [Text((platform.render)(Int(1)))]);
            && Tidy(SRRDB, TextRun(t, a, i, platform), platform)
            && r in ChosenRows(TableOf(s, t), Some(one), [Plain(a, t)], platform)
            && r !in SelectRows(s, t, Some(one), [PlainIndex(i, t, a)], [Plain(a, t)], platform)
            && !SameRows(s, t, one, [PlainIndex(i, t, a)], [Plain(a, t)], platform)
  {
    OneRowIndexed(t, a, i, Text((platform.render)(Int(1))), platform);
    TextMissed(Run(SRRDB, TextRun(t, a, i, platform), platform), t, a, i, platform);
  }

  // ---- Names with a colon ---------------------------------------------------------------------------------------------

  /** Tables named "u:b" and "u". */
  function Overlapping(u: Str, b: Str, a: Str): seq<Statement> {
    [MakeTable(u + [COLON] + b, a)] + [MakeTable(u, a)]
  }

  lemma OverlappingMade(u: Str, b: Str, a: Str, platform: Platform)
    requires Lowercase(u) && Lowercase(b)
    ensures var t, e := u + [COLON] + b, Run(SRRDB, Overlapping(u, b, a), platform);
            && Lowercase(t) && Tidy(SRRDB, Overlapping(u, b, a), platform)
            && HasSchema(e, map[t := TableDef(t, [Plain(a, t)]), u := TableDef(u, [Plain(a, u)])], map[t := [], u := []])
  {
    var t := u + [COLON] + b;
    assert Lower(t) == Lower(u) + [COLON] + Lower(b);
    assert [] + [MakeTable(t, a)] == [MakeTable(t, a)];
    NothingRun(platform);
    TableMade([], t, a, map[], map[], platform);
    TableMade([MakeTable(t, a)], u, a, map[t := TableDef(t, [Plain(a, t)])], map[t := []], platform);
  }

  /**
    * CREATE TABLE "u:b" (a); CREATE TABLE u (a); CREATE INDEX i ON "u:b" (a) keeps the indexes in step; DROP TABLE u
    * does not.
    */
  lemma DropTakesForeignIndex(u: Str, b: Str, a: Str, i: Str, platform: Platform)
    requires Lowercase(u) && Lowercase(b)
    ensures var t, s := u + [COLON] + b, DropTableStmt(u, false);
            var before := Overlapping(u, b, a) + [MakeIndex(i, t, a, false)];
            && Tidy(SRRDB, before, platform) && EngineInStep(Run(SRRDB, before, platform))
            && Exec(Run(SRRDB, before, platform), SRRDB, s, platform).result == Ok(Done)
            && !EngineInStep(Run(SRRDB, before + [s], platform))
  {
    var t, s := u + [COLON] + b, DropTableStmt(u, false);
    var before := Overlapping(u, b, a) + [MakeIndex(i, t, a, false)];
    var tables: map<Str, TableDef> := map[t := TableDef(t, [Plain(a, t)]), u := TableDef(u, [Plain(a, u)])];
    var indexes: map<Str, seq<IndexDef>> := map[t := [], u := []];
    OverlappingMade(u, b, a, platform);
    IndexMade(Overlapping(u, b, a), i, t, a, tables, indexes, platform);
    var e := Run(SRRDB, before, platform);
    RunInStep(SRRDB, before, platform);
    RunMore(before, s, platform);
    assert Lower(SRRDB) == SRRDB;
    assert StartsWith(t, u + [COLON]);
    var lists: map<Str, seq<IndexDef>> := e.defs.databases[SRRDB].indexes;
    assert t in lists && t != u && 0 < |lists[t]| && Overlaps(u, t, lists[t][0].name);
    assert DropsForeignEntry(e, SRRDB, s);
    StatementStep(e, SRRDB, s, platform);
  }

  lemma EntryMet(e: Engine, u: Str, first: Str, t: Str, c: Str, a: Str, tables: map<Str, TableDef>, indexes: map<Str,
      seq<IndexDef>>, platform: Platform)
    requires EngineInStep(e) && HasSchema(e, tables, indexes)
    requires Lowercase(t) && t in tables && t in indexes && indexes[t] == [] && tables[t].columns == [Plain(a, t)]
    requires u in indexes && u != t && indexes[u] == [PlainIndex(first, u, a)] && EntryName(u, first) == EntryName(t, c)
    ensures var o := Exec(e, SRRDB, MakeIndex(c, t, a, false), platform);
            o.result == Ok(Done) && !EngineInStep(o.engine)
  {
    assert Lower(SRRDB) == SRRDB;
    PlainIndexMade(e, c, t, a, tables, indexes, platform);
    assert !FreeEntry(e.defs.databases[SRRDB], t, c) by {
      assert EntryName(u, e.defs.databases[SRRDB].indexes[u][0].name) == EntryName(t, c);
    }
    assert SharesEntry(e, SRRDB, MakeIndex(c, t, a, false));
    StatementStep(e, SRRDB, MakeIndex(c, t, a, false), platform);
  }

  /**
    * With the same tables, CREATE INDEX "b:c" ON u (a) keeps the indexes in step; CREATE INDEX c ON "u:b" (a) writes
    * over its entry.
    */
  lemma IndexesShareEntry(u: Str, b: Str, a: Str, c: Str, platform: Platform)
    requires Lowercase(u) && Lowercase(b)
    ensures var t, first := u + [COLON] + b, b + [COLON] + c;
            var before, s := Overlapping(u, b, a) + [MakeIndex(first, u, a, false)], MakeIndex(c, t, a, false);
            && Tidy(SRRDB, before, platform) && EngineInStep(Run(SRRDB, before, platform))
            && Exec(Run(SRRDB, before, platform), SRRDB, s, platform).result == Ok(Done)
            && !EngineInStep(Run(SRRDB, before + [s], platform))
  {
    var t, first := u + [COLON] + b, b + [COLON] + c;
    var before, s := Overlapping(u, b, a) + [MakeIndex(first, u, a, false)], MakeIndex(c, t, a, false);
    var tables: map<Str, TableDef> := map[t := TableDef(t, [Plain(a, t)]), u := TableDef(u, [Plain(a, u)])];
    var indexes: map<Str, seq<IndexDef>> := map[t := [], u := []];
    OverlappingMade(u, b, a, platform);
    IndexMade(Overlapping(u, b, a), first, u, a, tables, indexes, platform);
    RunInStep(SRRDB, before, platform);
    RunMore(before, s, platform);
    EntriesMeet(u, b, c);
    EntryMet(Run(SRRDB, before, platform), u, first, t, c, a, tables, indexes[u := [PlainIndex(first, u, a)]], platform);
  }

  lemma EntriesMeet(u: Str, b: Str, c: Str)
    requires Lowercase(b)
    ensures EntryName(u, b + [COLON] + c) == EntryName(u + [COLON] + b, c)
  {
    assert Lower(b + [COLON] + c) == Lower(b) + [COLON] + Lower(c);
  }

  // ---- Restart over saved tables ----------------------------------------------------------------------------------------

  lemma OneInsertLogged(log: seq<WalEntry>, t: Str, columns: seq<Column>, rows: seq<Row>)
    requires log == [CreateTable(t, columns)] + [InsertRows(t, rows)]
    ensures !Drops(log, t) && !Snapshots(log, t)
  {
  }

  lemma OneInsertDoubled(statements: seq<Statement>, t: Str, columns: seq<Column>, v: Value, platform: Platform)
    requires Tidy(SRRDB, statements, platform) && Lowercase(t)
    requires Run(SRRDB, statements, platform).log == [CreateTable(t, columns)] + [InsertRows(t, Unnumbered([[v]]))]
    requires Run(SRRDB, statements, platform).store == StoreRows(EmptyStore, t, Unnumbered([[v]]))
    ensures var e := Run(SRRDB, statements, platform);
            var base := Image(e.defs, e.store);
            Saved(base, e) && |TableOf(e.store, t)| == 1 && |TableOf(ApplyAll(base, e.log).store, t)| == 2
  {
    var e := Run(SRRDB, statements, platform);
    FilledRowsAt(t, [[v]]);
    OneInsertLogged(e.log, t, columns, Unnumbered([[v]]));
    RunIsSaved(SRRDB, statements, platform);
    RestartDoublesRows(SRRDB, statements, platform, Image(e.defs, e.store), t);
  }

  /** CREATE TABLE t (a); INSERT INTO t VALUES (v): a restart over the saved table has the row twice. */
  lemma RestartRepeatsInsert(t: Str, a: Str, v: Value, platform: Platform)
    requires Lowercase(t)
    ensures var e := Run(SRRDB, TableWith(t, a, [[v]]), platform);
            var base := Image(e.defs, e.store);
            && Saved(base, e) && |TableOf(e.store, t)| == 1
            && |TableOf(ApplyAll(base, e.log).store, t)| == 2
  {
    TableFilled(t, a, [[v]], platform);
    OneInsertDoubled(TableWith(t, a, [[v]]), t, [Plain(a, t)], v, platform);
  }

  // ---- Conditions ---------------------------------------------------------------------------------------------------------

  /** a = 1 AND b = 2 on the row (1, 2): each side selects it, the condition does not. */
  lemma AndLosesRow(a: Str, b: Str, t: Str, platform: Platform)
    requires !SameName(a, b)
    ensures var l, r := ColumnEquals(a, Number(Int(1))), ColumnEquals(b, Number(Int(2)));
            var columns, values := [Plain(a, t), Plain(b, t)], [Int(1), Int(2)];
            && Selected(Some(l), columns, values, platform) && Selected(Some(r), columns, values, platform)
            && !Selected(Some(BinaryOp(l, And, r)), columns, values, platform)
  {
    var columns := [Plain(a, t), Plain(b, t)];
    assert Position(columns, a) == 0;
    assert columns[1..] == [Plain(b, t)] && Position(columns[1..], b) == 0;
    assert Position(columns, b) == 1;
  }

  /** a OR b on the row (1, NULL): a selects it, the condition does not. */
  lemma OrLosesRow(a: Str, b: Str, t: Str, platform: Platform)
    requires !SameName(a, b)
    ensures var columns, values := [Plain(a, t), Plain(b, t)], [Int(1), Null];
            && Selected(Some(Identifier(a)), columns, values, platform)
            && !Selected(Some(BinaryOp(Identifier(a), Or, Identifier(b))), columns, values, platform)
  {
    var columns := [Plain(a, t), Plain(b, t)];
    assert Position(columns, a) == 0;
    assert columns[1..] == [Plain(b, t)] && Position(columns[1..], b) == 0;
    assert Position(columns, b) == 1;
  }

  // ---- An UPDATE between the two halves of an INSERT --------------------------------------------------------------------

  /** CREATE TABLE t (a); CREATE INDEX i ON t (a) */
  function EmptyRun(t: Str, a: Str, i: Str): seq<Statement> {
    [MakeTable(t, a)] + [MakeIndex(i, t, a, false)]
  }

  /** The store with the rows of table `t` and the ids its one index has under each key. */
  function OneIndex(t: Str, i: Str, rows: map<Str, Table>, next: map<Str, nat>, lists: map<Key, seq<nat>>): Store {
    Store(rows, next, map[EntryName(t, i) := Postings(BTree, lists)])
  }

  lemma EmptyIndexed(t: Str, a: Str, i: Str, platform: Platform)
    requires Lowercase(t)
    ensures var e := Run(SRRDB, EmptyRun(t, a, i), platform);
            && Tidy(SRRDB, EmptyRun(t, a, i), platform)
            && HasSchema(e, map[t := TableDef(t, [Plain(a, t)])], map[t := [PlainIndex(i, t, a)]])
            && e.store == OneIndex(t, i, map[], map[], map[])
  {
    NothingRun(platform);
    assert [] + [MakeTable(t, a)] == [MakeTable(t, a)];
    TableMade([], t, a, map[], map[], platform);
    IndexMade([MakeTable(t, a)], i, t, a, map[t := TableDef(t, [Plain(a, t)])], map[t := []], platform);
    assert map[t := []][t := [PlainIndex(i, t, a)]] == map[t := [PlainIndex(i, t, a)]];
    assert GetRows(EmptyStore, t) == [];
  }

  lemma OneRowFiled(data: Entries, tn: Str, def: IndexDef, columns: seq<Column>, row: Row)
    ensures FileRows(data, tn, [def], columns, [row]) == FileOne(data, tn, def, columns, row)
    ensures UnfileRows(data, tn, [def], columns, [row]) == UnfileOne(data, tn, def, columns, row)
  {
    assert [row][..0] == [] && [def][..0] == [];
    assert FileRows(data, tn, [def], columns, []) == data && FileRow(data, tn, [], columns, row) == data;
    assert UnfileRows(data, tn, [def], columns, []) == data && UnfileRow(data, tn, [], columns, row) == data;
  }

  lemma OneRowStored(s: Store, t: Str, v: Value)
    requires Lowercase(t) && t !in s.tables && t !in s.nextIds
    ensures StoreRows(s, t, [Row(0, [v])]) == s.(tables := s.tables[t := map[1 := Row(1, [v])]], nextIds := s.nextIds[t := 2])
    ensures InsertedIds(s, t, [Row(0, [v])]) == [1]
  {
    assert [Row(0, [v])][..0] == [];
    assert PlaceAll(map[], 1, []) == Placement(map[], 1, []);
  }

  lemma OneRowChosen(t: Table, r: Row, selection: Option<Expr>, columns: seq<Column>, platform: Platform)
    requires t == map[r.id := r] && r.id >= 1 && Selected(selection, columns, r.values, platform)
    ensures ChosenRows(t, selection, columns, platform) == [r]
  {
    ValuesOfWf(t, r.id + 1);
    assert |Values(t)| == 1 && t[r.id] in Values(t);
    assert Values(t) == [r];
    FilterKeepsAll([r], Chooses(selection, columns, platform));
  }

  lemma KeyOfRow(t: Str, a: Str, i: Str, v: Value)
    ensures KeyOf(PlainIndex(i, t, a), [Plain(a, t)], [v]) == [v]
  {
    assert Position([Plain(a, t)], a) == 0;
  }

  /** Filing row 1 under [v] in an index that is alone. */
  lemma FiledAlone(t: Str, a: Str, i: Str, v: Value, lists: map<Key, seq<nat>>)
    ensures FileRows(map[EntryName(t, i) := Postings(BTree, lists)], t, [PlainIndex(i, t, a)], [Plain(a, t)], [Row(1, [v])])
         == map[EntryName(t, i) := Postings(BTree, lists[[v] := (if [v] in lists then lists[[v]] else []) + [1]])]
    ensures [v] !in lists ==>
              UnfileRows(map[EntryName(t, i) := Postings(BTree, lists)], t, [PlainIndex(i, t, a)], [Plain(a, t)], [Row(1, [v])])
              == map[EntryName(t, i) := Postings(BTree, lists)]
  {
    var data: Entries := map[EntryName(t, i) := Postings(BTree, lists)];
    KeyOfRow(t, a, i, v);
    OneRowFiled(data, t, PlainIndex(i, t, a), [Plain(a, t)], Row(1, [v]));
    var more := Add(Postings(BTree, lists), [v], 1);
    assert data[EntryName(t, i) := more] == map[EntryName(t, i) := more];
    assert data[EntryName(t, i) := Postings(BTree, lists)] == data;
  }

  lemma UnassignedStays(t: Table, columns: seq<Column>, platform: Platform)
    ensures Updated(t, None, columns, [], platform) == t
  {
    forall id | id in t ensures AssignedRow(t[id], []) == t[id] { }
  }

  lemma UpdateFiles(t: Str, a: Str, i: Str, v: Value, next: map<Str, nat>, platform: Platform)
    requires Lowercase(t)
    ensures var rows := map[t := map[1 := Row(1, [v])]];
            UpdateRows(OneIndex(t, i, rows, next, map[]), t, None, [], [PlainIndex(i, t, a)], [Plain(a, t)], platform)
            == OneIndex(t, i, rows, next, map[[v] := [1]])
  {
    var r, columns := Row(1, [v]), [Plain(a, t)];
    var rows: map<Str, Table> := map[t := map[1 := r]];
    OneRowChosen(map[1 := r], r, None, columns, platform);
    FiledAlone(t, a, i, v, map[]);
    assert AssignedRows([r], []) == [r];
    UnassignedStays(map[1 := r], columns, platform);
    assert rows[t := map[1 := r]] == rows;
    assert [] + [1] == [1];
  }

  lemma IndexFilesAgain(t: Str, a: Str, i: Str, v: Value, next: map<Str, nat>)
    requires Lowercase(t)
    ensures var rows := map[t := map[1 := Row(1, [v])]];
            IndexRows(OneIndex(t, i, rows, next, map[[v] := [1]]), t, [1], [PlainIndex(i, t, a)], [Plain(a, t)])
            == OneIndex(t, i, rows, next, map[[v] := [1, 1]])
  {
    var s := OneIndex(t, i, map[t := map[1 := Row(1, [v])]], next, map[[v] := [1]]);
    assert FoundRows(s, t, [1]) == [Row(1, [v])];
    FiledAlone(t, a, i, v, map[[v] := [1]]);
    assert [1] + [1] == [1, 1];
    assert map[[v] := [1]][[v] := [1, 1]] == map[[v] := [1, 1]];
  }

  lemma FetchedTwice(t: Table, r: Row, selection: Option<Expr>, columns: seq<Column>, platform: Platform)
    requires r.id in t && t[r.id] == r && Selected(selection, columns, r.values, platform)
    ensures Filter(Fetch(t, [r.id, r.id]), Chooses(selection, columns, platform)) == [r, r]
  {
    assert [r.id, r.id][..1] == [r.id] && [r.id][..0] == [];
    assert Fetch(t, [r.id]) == [r];
    assert Fetch(t, [r.id, r.id]) == [r, r];
    FilterKeepsAll([r, r], Chooses(selection, columns, platform));
  }

  lemma AnsweredTwice(t: Str, a: Str, i: Str, n: i64, next: map<Str, nat>, platform: Platform)
    requires Lowercase(t)
    ensures var s, r := OneIndex(t, i, map[t := map[1 := Row(1, [Int(n)])]], next, map[[Int(n)] := [1, 1]]), Row(1, [Int(n)]);
            && ChosenRows(TableOf(s, t), Some(ColumnEquals(a, Number(Int(n)))), [Plain(a, t)], platform) == [r]
            && SelectRows(s, t, Some(ColumnEquals(a, Number(Int(n)))), [PlainIndex(i, t, a)], [Plain(a, t)], platform) == [r, r]
  {
    var r, columns, e := Row(1, [Int(n)]), [Plain(a, t)], ColumnEquals(a, Number(Int(n)));
    var s := OneIndex(t, i, map[t := map[1 := r]], next, map[[Int(n)] := [1, 1]]);
    assert TableOf(s, t) == map[1 := r];
    assert Selected(Some(e), columns, r.values, platform);
    OneRowChosen(TableOf(s, t), r, Some(e), columns, platform);
    IndexOfColumn(s, i, t, a, Number(Int(n)));
    FetchedTwice(TableOf(s, t), r, Some(e), columns, platform);
  }

  /** One thread stores (n), another updates every row of t to what it is, the first files its row. */
  function Crossing(t: Str, n: i64): seq<Action> {
    [StoreAction(0, t, [Row(0, [Int(n)])]), UpdateAction(1, t, None, []), IndexAction(0)]
  }

  /**
    * CREATE TABLE t (a); CREATE INDEX i ON t (a); then that schedule: a = n, one row by scan, is answered twice through
    * the index.
    */
  lemma CrossingAnswersTwice(t: Str, a: Str, i: Str, n: i64, platform: Platform)
    requires Lowercase(t)
    ensures var d, from := SchemaAfter(SRRDB, EmptyRun(t, a, i), platform), System(Run(SRRDB, EmptyRun(t, a, i), platform).store, map[]);
            var e, r := ColumnEquals(a, Number(Int(n))), Row(1, [Int(n)]);
            && Tidy(SRRDB, EmptyRun(t, a, i), platform) && Schedule(d, from, Crossing(t, n), platform)
            && var s := After(d, from, Crossing(t, n), platform);
            && s.halfway == map[]
            && ChosenRows(TableOf(s.store, t), Some(e), ColumnsOf(d, t), platform) == [r]
            && SelectRows(s.store, t, Some(e), IndexesOf(d, t), ColumnsOf(d, t), platform) == [r, r]
  {
    EmptyIndexed(t, a, i, platform);
    CrossingEnds(t, a, i, n, platform);
    AnsweredTwice(t, a, i, n, map[t := 2], platform);
  }

  function LoneTable(t: Str, a: Str, i: Str): DatabaseDef {
    DatabaseDef(SRRDB, map[t := TableDef(t, [Plain(a, t)])], map[t := [PlainIndex(i, t, a)]])
  }

  /** The row (n) is stored; `lists` is filed. */
  function Crossed(t: Str, i: Str, n: i64, lists: map<Key, seq<nat>>, halfway: map<nat, Halfway>): System {
    System(OneIndex(t, i, map[t := map[1 := Row(1, [Int(n)])]], map[t := 2], lists), halfway)
  }

  lemma CrossingStores(t: Str, a: Str, i: Str, n: i64, platform: Platform)
    requires Lowercase(t)
    ensures var from, action := System(OneIndex(t, i, map[], map[], map[]), map[]), StoreAction(0, t, [Row(0, [Int(n)])]);
            Enabled(LoneTable(t, a, i), from, action)
            && Next(LoneTable(t, a, i), from, action, platform) == Crossed(t, i, n, map[], map[0 := Halfway(t, [1])])
  {
    OneRowStored(OneIndex(t, i, map[], map[], map[]), t, Int(n));
  }

  lemma CrossingUpdates(t: Str, a: Str, i: Str, n: i64, platform: Platform)
    requires Lowercase(t)
    ensures var from, action := Crossed(t, i, n, map[], map[0 := Halfway(t, [1])]), UpdateAction(1, t, None, []);
            Enabled(LoneTable(t, a, i), from, action)
            && Next(LoneTable(t, a, i), from, action, platform) == Crossed(t, i, n, map[[Int(n)] := [1]], map[0 := Halfway(t, [1])])
  {
    UpdateFiles(t, a, i, Int(n), map[t := 2], platform);
  }

  lemma CrossingFiles(t: Str, a: Str, i: Str, n: i64, platform: Platform)
    requires Lowercase(t)
    ensures var from := Crossed(t, i, n, map[[Int(n)] := [1]], map[0 := Halfway(t, [1])]);
            Enabled(LoneTable(t, a, i), from, IndexAction(0))
            && Next(LoneTable(t, a, i), from, IndexAction(0), platform) == Crossed(t, i, n, map[[Int(n)] := [1, 1]], map[])
  {
    IndexFilesAgain(t, a, i, Int(n), map[t := 2]);
    assert map[0 := Halfway(t, [1])] - {0} == map[];
  }

  lemma CrossingEnds(t: Str, a: Str, i: Str, n: i64, platform: Platform)
    requires Lowercase(t)
    ensures var from := System(OneIndex(t, i, map[], map[], map[]), map[]);
            && Schedule(LoneTable(t, a, i), from, Crossing(t, n), platform)
            && After(LoneTable(t, a, i), from, Crossing(t, n), platform) == Crossed(t, i, n, map[[Int(n)] := [1, 1]], map[])
  {
    CrossingStores(t, a, i, n, platform);
    CrossingUpdates(t, a, i, n, platform);
    CrossingFiles(t, a, i, n, platform);
    ThreeSteps(LoneTable(t, a, i), System(OneIndex(t, i, map[], map[], map[]), map[]), Crossing(t, n), platform);
  }

  lemma ThreeSteps(d: DatabaseDef, from: System, actions: seq<Action>, platform: Platform)
    requires |actions| == 3 && Enabled(d, from, actions[0])
    requires var one := Next(d, from, actions[0], platform);
             Enabled(d, one, actions[1]) && var two := Next(d, one, actions[1], platform); Enabled(d, two, actions[2])
    ensures Schedule(d, from, actions, platform)
    ensures After(d, from, actions, platform) == Next(d, Next(d, Next(d, from, actions[0], platform), actions[1], platform), actions[2], platform)
  {
    var rest, last := actions[1..], actions[2..];
    assert rest[1..] == last && last[1..] == [];
    var one := Next(d, from, actions[0], platform);
    var two := Next(d, one, rest[0], platform);
    var three := Next(d, two, last[0], platform);
    assert Schedule(d, three, [], platform) && After(d, three, [], platform) == three;
    assert Schedule(d, two, last, platform) && After(d, two, last, platform) == three;
    assert Schedule(d, one, rest, platform) && After(d, one, rest, platform) == three;
  }
}
