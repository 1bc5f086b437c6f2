/** `src/engine/catalog.rs`: databases, their tables and index definitions, and the AUTO_INCREMENT sequences. */
module Catalog {
  import opened Prelude
  import opened Types
  import opened Index

  datatype Error =
    | UnknownDatabase
    | TableExists
    | UnknownTable
    | IndexExists
    | NoIndexes
    | UnknownIndex
    | UnknownColumn
    | TupleAssignment
    | MissingSource
    | OnlyValues
    | NoIndexColumns
    | DuplicateEntry
    | RowTooShort

  datatype TableDef = TableDef(name: Str, columns: seq<Column>)

  datatype DatabaseDef = DatabaseDef(name: Str, tables: map<Str, TableDef>, indexes: map<Str, seq<IndexDef>>)

  datatype Definitions = Definitions(databases: map<Str, DatabaseDef>, sequences: map<Str, nat>)

  const FreshDefinitions := Definitions(map[SRRDB := DatabaseDef(SRRDB, map[], map[])], map[])

  function GetTable(c: Definitions, db: Str, name: Str): Result<TableDef, Error> {
    if Lower(db) !in c.databases then Err(UnknownDatabase)
    else if Lower(name) !in c.databases[Lower(db)].tables then Err(UnknownTable)
    else Ok(c.databases[Lower(db)].tables[Lower(name)])
  }

  function TableIndexes(c: Definitions, db: Str, name: Str): seq<IndexDef> {
    if Lower(db) in c.databases && Lower(name) in c.databases[Lower(db)].indexes
    then c.databases[Lower(db)].indexes[Lower(name)]
    else []
  }

  function IndexPosition(defs: seq<IndexDef>, name: Str): (p: nat)
    ensures p <= |defs|
    ensures p < |defs| ==> SameName(defs[p].name, name)
    ensures forall i :: 0 <= i < p ==> !SameName(defs[i].name, name)
  {
    if defs == [] || SameName(defs[0].name, name) then 0 else 1 + IndexPosition(defs[1..], name)
  }

  predicate HasIndex(defs: seq<IndexDef>, name: Str) {
    IndexPosition(defs, name) < |defs|
  }

  function WithTable(c: Definitions, db: Str, name: Str, columns: seq<Column>): Result<Definitions, Error> {
    var tn, dn := Lower(name), Lower(db);
    if dn !in c.databases then Err(UnknownDatabase)
    else if tn in c.databases[dn].tables then Err(TableExists)
    else
      var d := c.databases[dn];
      var indexes := if tn in d.indexes then d.indexes else d.indexes[tn := []];
      Ok(Definitions(
           c.databases[dn := d.(tables := d.tables[tn := TableDef(name, columns)], indexes := indexes)],
           c.sequences[tn := 1]))
  }

  function WithoutTable(c: Definitions, db: Str, name: Str): Result<Definitions, Error> {
    var tn, dn := Lower(name), Lower(db);
    if dn !in c.databases then Err(UnknownDatabase)
    else if tn !in c.databases[dn].tables then Err(UnknownTable)
    else
      var d := c.databases[dn];
      Ok(Definitions(
           c.databases[dn := d.(tables := d.tables - {tn}, indexes := d.indexes - {tn})],
           c.sequences - {tn}))
  }

  function WithIndex(c: Definitions, db: Str, def: IndexDef): Result<Definitions, Error> {
    var tn, dn := Lower(def.tableName), Lower(db);
    if dn !in c.databases then Err(UnknownDatabase)
    else if tn !in c.databases[dn].tables then Err(UnknownTable)
    else
      var d := c.databases[dn];
      var defs := TableIndexes(c, db, def.tableName);
      if HasIndex(defs, def.name) then Err(IndexExists)
      else Ok(c.(databases := c.databases[dn := d.(indexes := d.indexes[tn := defs + [def]])]))
  }

  function WithoutIndex(c: Definitions, db: Str, indexName: Str, tableName: Str): Result<Definitions, Error> {
    var tn, dn := Lower(tableName), Lower(db);
    if dn !in c.databases then Err(UnknownDatabase)
    else if tn !in c.databases[dn].indexes then Err(NoIndexes)
    else
      var d := c.databases[dn];
      var defs := d.indexes[tn];
      var p := IndexPosition(defs, indexName);
      if p == |defs| then Err(UnknownIndex)
      else Ok(c.(databases := c.databases[dn := d.(indexes := d.indexes[tn := defs[..p] + defs[p + 1..]])]))
  }

  function SequenceOf(c: Definitions, name: Str): nat {
    if Lower(name) in c.sequences then c.sequences[Lower(name)] else 1
  }

  function WithSequence(c: Definitions, name: Str, next: nat): Definitions {
    c.(sequences := c.sequences[Lower(name) := next])
  }

  /** No two definitions of a table share a name. */
  predicate DistinctNames(defs: seq<IndexDef>) {
    forall i, j :: 0 <= i < j < |defs| ==> !SameName(defs[i].name, defs[j].name)
  }

  class Catalog {
    var databases: map<Str, DatabaseDef>
    var sequences: map<Str, nat>

    ghost function View(): Definitions
      reads this
    {
      Definitions(databases, sequences)
    }

    constructor ()
      ensures View() == FreshDefinitions
    {
      databases := map[SRRDB := DatabaseDef(SRRDB, map[], map[])];
      sequences := map[];
    }

    method CreateTable(db: Str, name: Str, columns: seq<Column>) returns (r: Option<Error>)
      modifies this
      ensures match old(WithTable(View(), db, name, columns))
              case Ok(c) => r == None && View() == c
              case Err(e) => r == Some(e) && View() == old(View())
    {
      var tn, dn := Lower(name), Lower(db);
      if dn !in databases {
        return Some(UnknownDatabase);
      }
      var d := databases[dn];
      if tn in d.tables {
        return Some(TableExists);
      }
      d := d.(tables := d.tables[tn := TableDef(name, columns)]);
      if tn !in d.indexes {
        d := d.(indexes := d.indexes[tn := []]);
      }
      databases := databases[dn := d];
      sequences := sequences[tn := 1];
      r := None;
    }

    method DropTable(db: Str, name: Str) returns (r: Option<Error>)
      modifies this
      ensures match old(WithoutTable(View(), db, name))
              case Ok(c) => r == None && View() == c
              case Err(e) => r == Some(e) && View() == old(View())
    {
      var tn, dn := Lower(name), Lower(db);
      if dn !in databases {
        return Some(UnknownDatabase);
      }
      var d := databases[dn];
      if tn !in d.tables {
        return Some(UnknownTable);
      }
      databases := databases[dn := d.(tables := d.tables - {tn}, indexes := d.indexes - {tn})];
      sequences := sequences - {tn};
      r := None;
    }

    method CreateIndex(db: Str, def: IndexDef) returns (r: Option<Error>)
      modifies this
      ensures match old(WithIndex(View(), db, def))
              case Ok(c) => r == None && View() == c
              case Err(e) => r == Some(e) && View() == old(View())
    {
      var tn, dn := Lower(def.tableName), Lower(db);
      if dn !in databases {
        return Some(UnknownDatabase);
      }
      var d := databases[dn];
      if tn !in d.tables {
        return Some(UnknownTable);
      }
      var defs := if tn in d.indexes then d.indexes[tn] else [];
      if HasIndex(defs, def.name) {
        return Some(IndexExists);
      }
      databases := databases[dn := d.(indexes := d.indexes[tn := defs + [def]])];
      r := None;
    }

    method DropIndex(db: Str, indexName: Str, tableName: Str) returns (r: Option<Error>)
      modifies this
      ensures match old(WithoutIndex(View(), db, indexName, tableName))
              case Ok(c) => r == None && View() == c
              case Err(e) => r == Some(e) && View() == old(View())
    {
      var tn, dn := Lower(tableName), Lower(db);
      if dn !in databases {
        return Some(UnknownDatabase);
      }
      var d := databases[dn];
      if tn !in d.indexes {
        return Some(NoIndexes);
      }
      var defs := d.indexes[tn];
      var p := IndexPosition(defs, indexName);
      if p == |defs| {
        return Some(UnknownIndex);
      }
      databases := databases[dn := d.(indexes := d.indexes[tn := defs[..p] + defs[p + 1..]])];
      r := None;
    }

    method NextRowId(name: Str, count: nat) returns (current: nat)
      modifies this
      ensures current == old(SequenceOf(View(), name))
      ensures View() == old(WithSequence(View(), name, SequenceOf(View(), name) + count))
    {
      var tn := Lower(name);
      current := if tn in sequences then sequences[tn] else 1;
      sequences := sequences[tn := current + count];
    }
  }
}
