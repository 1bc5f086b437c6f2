/**
  * What the statements about tables and indexes do to the definitions, and what they answer, told as in `Statements`.
  */
module Schemas {
  import opened Prelude
  import opened Types
  import opened Index
  import opened Storage
  import opened Catalog
  import opened WalEntries
  import opened Maintenance
  import opened Where
  import opened Engine
  import opened Coherence
  import opened Statements

  // ---- What stays -------------------------------------------------------------------------------------------

  /** Among the definitions of tables and indexes, only those of this table may differ. */
  ghost predicate OnlyDefinitionOf(c: Definitions, c': Definitions, db: Str, name: Str) {
    && c'.databases.Keys == c.databases.Keys
    && forall d, u :: !(SameName(d, db) && SameName(u, name)) ==>
                        GetTable(c', d, u) == GetTable(c, d, u) && TableIndexes(c', d, u) == TableIndexes(c, d, u)
  }

  ghost predicate OnlySequenceOf(c: Definitions, c': Definitions, name: Str) {
    forall u :: !SameName(u, name) ==> SequenceOf(c', u) == SequenceOf(c, u)
  }

  /** The statement was logged before it failed; nothing else happened. */
  ghost predicate LoggedInVain(e: Engine, entry: WalEntry, x: Error, o: Outcome) {
    o == Outcome(Logged(e, entry), Err(x))
  }

  // ---- CREATE TABLE, DROP TABLE --------------------------------------------------------------------------------

  /** There is a new table with these columns and a sequence at 1. */
  ghost predicate TableAdded(c: Definitions, c': Definitions, db: Str, name: Str, columns: seq<Column>) {
    && GetTable(c', db, name) == Ok(TableDef(name, columns))
    && TableIndexes(c', db, name) == TableIndexes(c, db, name)
    && SequenceOf(c', name) == 1
    && OnlyDefinitionOf(c, c', db, name) && OnlySequenceOf(c, c', name)
  }

  ghost predicate CreatesTable(e: Engine, db: Str, name: Str, columns: seq<Column>, ifNotExists: bool, o: Outcome) {
    match GetTable(e.defs, db, name)
    case Ok(_) =>
      if ifNotExists then o == Outcome(e, Ok(Done)) else LoggedInVain(e, CreateTable(name, columns), TableExists, o)
    case Err(x) =>
      if x == UnknownDatabase then LoggedInVain(e, CreateTable(name, columns), x, o)
      else
        && o.result == Ok(Done)
        && TableAdded(e.defs, o.engine.defs, db, name, columns)
        && o.engine.store == e.store && o.engine.log == e.log + [CreateTable(name, columns)]
  }

  /** CREATE TABLE adds the table with its columns, or fails for a table that exists or a database that does not. */
  lemma CreateTableEffect(e: Engine, db: Str, name: Str, columns: seq<Column>, ifNotExists: bool)
    ensures CreatesTable(e, db, name, columns, ifNotExists, ExecCreateTable(e, db, name, columns, ifNotExists))
  {
  }

  /** There is no such table, and neither rows, counter, indexes nor a sequence of that name. */
  ghost predicate TableGone(e: Engine, after: Engine, db: Str, name: Str) {
    && GetTable(after.defs, db, name) == Err(UnknownTable)
    && TableIndexes(after.defs, db, name) == []
    && SequenceOf(after.defs, name) == 1
    && TableOf(after.store, name) == map[] && NextOf(after.store, name) == 1
    && OnlyDefinitionOf(e.defs, after.defs, db, name) && OnlySequenceOf(e.defs, after.defs, name)
    && OnlyRowsOf(e.store, after.store, Lower(name))
    && forall entry :: if StartsWith(entry, Lower(name) + [COLON]) then entry !in after.store.indexData
                       else SameAt(e.store.indexData, after.store.indexData, entry)
  }

  ghost predicate DropsTable(e: Engine, db: Str, name: Str, ifExists: bool, o: Outcome) {
    match GetTable(e.defs, db, name)
    case Err(x) => if ifExists then o == Outcome(e, Ok(Done)) else LoggedInVain(e, DropTable(Lower(name)), x, o)
    case Ok(_) =>
      && o.result == Ok(Done)
      && TableGone(e, o.engine, db, name)
      && o.engine.log == e.log + [DropTable(Lower(name))]
  }

  /**
    * DROP TABLE takes the table, its rows, counter, indexes and index data away, or fails for a table that does not
    * exist.
    */
  lemma DropTableEffect(e: Engine, db: Str, name: Str, ifExists: bool)
    ensures DropsTable(e, db, name, ifExists, ExecDropTable(e, db, name, ifExists))
  {
    LowerIdempotent(name);
  }

  // ---- CREATE INDEX ------------------------------------------------------------------------------------------------

  predicate HasName(defs: seq<IndexDef>, name: Str) {
    exists i :: 0 <= i < |defs| && SameName(defs[i].name, name)
  }

  /** Two rows agree in every column of the index. */
  ghost predicate TwoRowsAgree(t: Table, def: IndexDef, columns: seq<Column>) {
    exists x, y :: x in t && y in t && x != y && AgreeIn(def, columns, t[x].values, t[y].values)
  }

  predicate AgreeIn(def: IndexDef, columns: seq<Column>, u: seq<Value>, v: seq<Value>) {
    forall i :: 0 <= i < |def.columns| ==> Cell(columns, def.columns[i], u) == Cell(columns, def.columns[i], v)
  }

  /** Two rows have one key exactly when they agree in every column of the index. */
  lemma KeysAgree(def: IndexDef, columns: seq<Column>, u: seq<Value>, v: seq<Value>)
    ensures KeyOf(def, columns, u) == KeyOf(def, columns, v) <==> AgreeIn(def, columns, u, v)
  {
    if KeyOf(def, columns, u) == KeyOf(def, columns, v) {
      forall i | 0 <= i < |def.columns| ensures Cell(columns, def.columns[i], u) == Cell(columns, def.columns[i], v) {
        assert KeyOf(def, columns, u)[i] == KeyOf(def, columns, v)[i];
      }
    }
  }

  lemma DuplicateIsAgreement(t: Table, rows: seq<Row>, def: IndexDef, columns: seq<Column>)
    requires Enumerates(rows, t)
    ensures HasDuplicate(def, columns, rows) <==> TwoRowsAgree(t, def, columns)
  {
    if HasDuplicate(def, columns, rows) {
      var i, j :| 0 <= i < j < |rows| && KeyOf(def, columns, rows[i].values) == KeyOf(def, columns, rows[j].values);
      KeysAgree(def, columns, rows[i].values, rows[j].values);
      assert rows[i] in rows && rows[j] in rows;
      assert AgreeIn(def, columns, t[rows[i].id].values, t[rows[j].id].values);
    }
    if TwoRowsAgree(t, def, columns) {
      var x, y :| x in t && y in t && x != y && AgreeIn(def, columns, t[x].values, t[y].values);
      AgreeingRowsMeet(t, rows, def, columns, x, y);
    }
  }

  lemma AgreeingRowsMeet(t: Table, rows: seq<Row>, def: IndexDef, columns: seq<Column>, x: nat, y: nat)
    requires Enumerates(rows, t) && x in t && y in t && x != y && AgreeIn(def, columns, t[x].values, t[y].values)
    ensures HasDuplicate(def, columns, rows)
  {
    assert t[x] in rows && t[y] in rows;
    var i :| 0 <= i < |rows| && rows[i] == t[x];
    var j :| 0 <= j < |rows| && rows[j] == t[y];
    KeysAgree(def, columns, rows[i].values, rows[j].values);
    assert i != j;
    assert KeyOf(def, columns, rows[if i < j then i else j].values) == KeyOf(def, columns, rows[if i < j then j else i].values);
  }

  /**
    * The definition is there, and so is its data, filing every row once under its own key, unless a unique index meets
    * two rows that agree.
    */
  ghost predicate IndexDefined(e: Engine, db: Str, def: IndexDef, columns: seq<Column>, o: Outcome) {
    var entry, t, data := EntryName(Lower(def.tableName), def.name), TableOf(e.store, def.tableName), o.engine.store.indexData;
    && TableIndexes(o.engine.defs, db, def.tableName) == TableIndexes(e.defs, db, def.tableName) + [def]
    && GetTable(o.engine.defs, db, def.tableName) == GetTable(e.defs, db, def.tableName)
    && OnlyDefinitionOf(e.defs, o.engine.defs, db, def.tableName)
    && o.engine.defs.sequences == e.defs.sequences
    && SameRowsAndCounters(e.store, o.engine.store)
    && SameBut(e.store.indexData, data, entry)
    && o.engine.log == e.log + [CreateIndex(db, def)]
    && if def.unique && TwoRowsAgree(t, def, columns) then o.result == Err(DuplicateEntry) && entry !in data
       else o.result == Ok(Done) && entry in data && Exact(data[entry], def, columns, t)
  }

  ghost predicate CreatesIndex(e: Engine, db: Str, table: Str, given: Option<Str>, kind: IndexType, names: seq<Str>,
      unique: bool, o: Outcome) {
    if GetTable(e.defs, db, table).Err? then o == Outcome(e, Err(UnknownTable))
    else if names == [] then o == Outcome(e, Err(NoIndexColumns))
    else
      var name := if given.Some? then given.value else IDX + table + [95] + Joined(names);
      CreatesNamed(e, db, IndexDef(name, kind, table, names, unique), o)
  }

  /** The names one after another, an underscore between them. */
  lemma {:induction false} JoinedAppends(names: seq<Str>, name: Str)
    ensures Joined([name]) == name
    ensures names != [] ==> Joined(names + [name]) == Joined(names) + [95] + name
  {
    if |names| == 1 {
      assert names + [name] == [names[0], name] && (names + [name])[1..] == [name];
    } else if names != [] {
      JoinedAppends(names[1..], name);
      assert (names + [name])[1..] == names[1..] + [name];
    }
  }

  ghost predicate CreatesNamed(e: Engine, db: Str, def: IndexDef, o: Outcome)
    requires GetTable(e.defs, db, def.tableName).Ok?
  {
    if HasName(TableIndexes(e.defs, db, def.tableName), def.name) then o == Outcome(e, Err(IndexExists))
    else IndexDefined(e, db, def, GetTable(e.defs, db, def.tableName).value.columns, o)
  }

  lemma {:induction false} HasIndexIsHasName(defs: seq<IndexDef>, name: Str)
    ensures HasIndex(defs, name) <==> HasName(defs, name)
  {
  }

  lemma DefinitionAppended(c: Definitions, db: Str, def: IndexDef)
    requires GetTable(c, db, def.tableName).Ok? && !HasIndex(TableIndexes(c, db, def.tableName), def.name)
    ensures var r := WithIndex(c, db, def);
            && r.Ok?
            && TableIndexes(r.value, db, def.tableName) == TableIndexes(c, db, def.tableName) + [def]
            && GetTable(r.value, db, def.tableName) == GetTable(c, db, def.tableName)
            && OnlyDefinitionOf(c, r.value, db, def.tableName)
            && r.value.sequences == c.sequences
  {
  }

  lemma BuiltFromRows(s: Store, def: IndexDef, columns: seq<Column>)
    requires WfStore(s)
    ensures HasDuplicate(def, columns, GetRows(s, def.tableName)) <==> TwoRowsAgree(TableOf(s, def.tableName), def, columns)
    ensures Exact(BuildIndex(def, columns, GetRows(s, def.tableName)), def, columns, TableOf(s, def.tableName))
  {
    TableIsWf(s, def.tableName);
    ValuesOfWf(TableOf(s, def.tableName), NextOf(s, def.tableName));
    DuplicateIsAgreement(TableOf(s, def.tableName), GetRows(s, def.tableName), def, columns);
    BuildIndexIsExact(def, columns, TableOf(s, def.tableName), GetRows(s, def.tableName));
  }

  lemma NewIndexDefined(e: Engine, db: Str, table: Str, given: Option<Str>, kind: IndexType, names: seq<Str>,
      unique: bool)
    requires WfStore(e.store) && GetTable(e.defs, db, table).Ok? && names != []
    requires !HasIndex(TableIndexes(e.defs, db, table), IndexName(table, given, names))
    ensures IndexDefined(e, db, IndexDef(IndexName(table, given, names), kind, table, names, unique),
                         GetTable(e.defs, db, table).value.columns, ExecCreateIndex(e, db, table, given, kind, names, unique))
  {
    var def := IndexDef(IndexName(table, given, names), kind, table, names, unique);
    DefinitionAppended(e.defs, db, def);
    BuiltFromRows(e.store, def, GetTable(e.defs, db, table).value.columns);
  }

  /**
    * CREATE INDEX adds the definition and files every row once under its key; a unique index over two rows that agree
    * in all its columns is refused with its definition added and its data absent.
    */
  lemma CreateIndexEffect(e: Engine, db: Str, table: Str, given: Option<Str>, kind: IndexType, names: seq<Str>,
      unique: bool)
    requires WfStore(e.store)
    ensures CreatesIndex(e, db, table, given, kind, names, unique, ExecCreateIndex(e, db, table, given, kind, names, unique))
  {
    if GetTable(e.defs, db, table).Ok? && names != [] {
      var def := IndexDef(IndexName(table, given, names), kind, table, names, unique);
      HasIndexIsHasName(TableIndexes(e.defs, db, table), def.name);
      if !HasIndex(TableIndexes(e.defs, db, table), def.name) {
        NewIndexDefined(e, db, table, given, kind, names, unique);
      }
      assert CreatesNamed(e, db, def, ExecCreateIndex(e, db, table, given, kind, names, unique));
    }
  }

  // ---- DROP INDEX -----------------------------------------------------------------------------------------------------

  /** Index lists are kept under lowercase names. */
  ghost predicate LowercaseLists(c: Definitions) {
    forall d, tn :: d in c.databases && tn in c.databases[d].indexes ==> Lower(tn) == tn
  }

  /** Table `tn` of the database has an index of that name. */
  predicate Holds(c: Definitions, db: Str, tn: Str, name: Str) {
    Lower(db) in c.databases && tn in c.databases[Lower(db)].indexes && HasName(c.databases[Lower(db)].indexes[tn], name)
  }

  /**
    * The first definition of that name is gone from the table's list, its data is gone, and everything else is as it
    * was.
    */
  ghost predicate IndexGone(e: Engine, after: Engine, db: Str, tn: Str, name: Str) {
    var list, entry := TableIndexes(e.defs, db, tn), EntryName(tn, name);
    && (exists p :: && 0 <= p < |list| && SameName(list[p].name, name) && (forall i :: 0 <= i < p ==> !SameName(list[i].name, name))
                    && TableIndexes(after.defs, db, tn) == list[..p] + list[p + 1..])
    && GetTable(after.defs, db, tn) == GetTable(e.defs, db, tn)
    && OnlyDefinitionOf(e.defs, after.defs, db, tn)
    && after.defs.sequences == e.defs.sequences
    && SameRowsAndCounters(e.store, after.store)
    && entry !in after.store.indexData && SameBut(e.store.indexData, after.store.indexData, entry)
    && after.log == e.log + [DropIndex(db, name, tn)]
  }

  ghost predicate DropsIndex(e: Engine, db: Str, name: Str, order: seq<Str>, o: Outcome) {
    if forall k :: 0 <= k < |order| ==> !Holds(e.defs, db, order[k], name) then o == Outcome(e, Err(UnknownIndex))
    else
      exists k :: && 0 <= k < |order| && Holds(e.defs, db, order[k], name) && (forall j :: 0 <= j < k ==> !Holds(e.defs, db, order[j], name))
                  && o.result == Ok(Done) && IndexGone(e, o.engine, db, order[k], name)
  }

  lemma {:induction false} FoundFirst(c: Definitions, db: Str, order: seq<Str>, name: Str)
    ensures match FindIndexTable(c, db, order, name)
            case None => forall k :: 0 <= k < |order| ==> !Holds(c, db, order[k], name)
            case Some(tn) =>
              exists k :: 0 <= k < |order| && order[k] == tn && Holds(c, db, tn, name)
                          && forall j :: 0 <= j < k ==> !Holds(c, db, order[j], name)
  {
    if Lower(db) in c.databases && order != [] {
      var lists := c.databases[Lower(db)].indexes;
      if order[0] in lists {
        HasIndexIsHasName(lists[order[0]], name);
      }
      if !Holds(c, db, order[0], name) {
        FoundFirst(c, db, order[1..], name);
        assert forall k :: 0 < k < |order| ==> order[k] == order[1..][k - 1];
      }
    }
  }

  lemma FoundIndexGone(e: Engine, db: Str, name: Str, ifExists: bool, order: seq<Str>, tn: Str)
    requires FindIndexTable(e.defs, db, order, name) == Some(tn) && Holds(e.defs, db, tn, name) && Lower(tn) == tn
    ensures var o := ExecDropIndex(e, db, name, ifExists, order);
            o.result == Ok(Done) && IndexGone(e, o.engine, db, tn, name)
  {
    var list := TableIndexes(e.defs, db, tn);
    HasIndexIsHasName(list, name);
    var p := IndexPosition(list, name);
    assert TableIndexes(ExecDropIndex(e, db, name, ifExists, order).engine.defs, db, tn) == list[..p] + list[p + 1..];
  }

  /**
    * DROP INDEX takes the first index of that name met out of its table's list and its data away, or fails when there
    * is none.
    */
  lemma DropIndexEffect(e: Engine, db: Str, name: Str, ifExists: bool, order: seq<Str>)
    requires LowercaseLists(e.defs)
    ensures DropsIndex(e, db, name, order, ExecDropIndex(e, db, name, ifExists, order))
  {
    FoundFirst(e.defs, db, order, name);
    var found := FindIndexTable(e.defs, db, order, name);
    if found.Some? {
      FoundIndexGone(e, db, name, ifExists, order, found.value);
    }
  }

  lemma TablesKeepLowercase(c: Definitions, db: Str, name: Str, columns: seq<Column>)
    requires LowercaseLists(c)
    ensures WithTable(c, db, name, columns).Ok? ==> LowercaseLists(WithTable(c, db, name, columns).value)
    ensures WithoutTable(c, db, name).Ok? ==> LowercaseLists(WithoutTable(c, db, name).value)
  {
    LowerIdempotent(name);
  }

  lemma IndexesKeepLowercase(c: Definitions, db: Str, def: IndexDef, name: Str, table: Str)
    requires LowercaseLists(c)
    ensures WithIndex(c, db, def).Ok? ==> LowercaseLists(WithIndex(c, db, def).value)
    ensures WithoutIndex(c, db, name, table).Ok? ==> LowercaseLists(WithoutIndex(c, db, name, table).value)
  {
    LowerIdempotent(def.tableName);
  }

  lemma IndexStatementsKeepLowercase(e: Engine, db: Str, s: Statement, platform: Platform)
    requires LowercaseLists(e.defs) && (s.CreateIndexStmt? || s.DropIndexStmt?)
    ensures LowercaseLists(Exec(e, db, s, platform).engine.defs)
  {
    if s.CreateIndexStmt? {
      IndexesKeepLowercase(e.defs, db, DefOf(s), [], []);
    } else {
      var found := FindIndexTable(e.defs, db, s.order, s.name);
      if found.Some? {
        IndexesKeepLowercase(e.defs, db, IndexDef([], BTree, [], [], false), s.name, found.value);
      }
    }
  }

  lemma ExecKeepsLowercase(e: Engine, db: Str, s: Statement, platform: Platform)
    requires LowercaseLists(e.defs)
    ensures LowercaseLists(Exec(e, db, s, platform).engine.defs)
  {
    match s {
      case CreateTableStmt(name, columns, ifNotExists) => TablesKeepLowercase(e.defs, db, name, columns);
      case DropTableStmt(name, ifExists) => TablesKeepLowercase(e.defs, db, Lower(name), []);
      case CreateIndexStmt(_, _, _, _, _) => IndexStatementsKeepLowercase(e, db, s, platform);
      case DropIndexStmt(_, _, _) => IndexStatementsKeepLowercase(e, db, s, platform);
      case InsertStmt(table, names, source, now) => assert ExecInsert(e, db, table, names, source, now).engine.defs.databases == e.defs.databases;
      case _ =>
    }
  }

  /** Which they are in every run. */
  lemma {:induction false} RunKeepsLowercase(db: Str, statements: seq<Statement>, platform: Platform)
    ensures LowercaseLists(Run(db, statements, platform).defs)
  {
    if statements != [] {
      var n := |statements| - 1;
      RunKeepsLowercase(db, statements[..n], platform);
      ExecKeepsLowercase(Run(db, statements[..n], platform), db, statements[n], platform);
    }
  }
}
