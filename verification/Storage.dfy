/** `src/engine/storage.rs`: tables of rows by id, the id counters, and the index data of every table. */
module Storage {
  import opened Prelude
  import opened Order
  import opened Types
  import opened Index

  type Table = map<nat, Row>

  datatype Store = Store(tables: map<Str, Table>, nextIds: map<Str, nat>, indexData: map<Str, Postings>)

  const EmptyStore := Store(map[], map[], map[])

  function TableOf(s: Store, name: Str): Table {
    if Lower(name) in s.tables then s.tables[Lower(name)] else map[]
  }

  function NextOf(s: Store, name: Str): nat {
    if Lower(name) in s.nextIds then s.nextIds[Lower(name)] else 1
  }

  // ---- Placing rows ----------------------------------------------------------

  datatype Placement = Placement(table: Table, next: nat, ids: seq<nat>)

  function Place(p: Placement, row: Row): Placement {
    if row.id == 0 then
      Placement(p.table[p.next := row.(id := p.next)], p.next + 1, p.ids + [p.next])
    else
      Placement(p.table[row.id := row], if row.id >= p.next then row.id + 1 else p.next, p.ids + [row.id])
  }

  function PlaceAll(table: Table, next: nat, rows: seq<Row>): (p: Placement)
    ensures |p.ids| == |rows|
  {
    if rows == [] then Placement(table, next, [])
    else Place(PlaceAll(table, next, rows[..|rows| - 1]), rows[|rows| - 1])
  }

  function Inserted(s: Store, name: Str, rows: seq<Row>): Store {
    var p := PlaceAll(TableOf(s, name), NextOf(s, name), rows);
    s.(tables := s.tables[Lower(name) := p.table], nextIds := s.nextIds[Lower(name) := p.next])
  }

  function InsertedIds(s: Store, name: Str, rows: seq<Row>): (ids: seq<nat>)
    ensures |ids| == |rows|
  {
    PlaceAll(TableOf(s, name), NextOf(s, name), rows).ids
  }

  /** Every row is stored under its own id, and ids lie below the counter. */
  ghost predicate WfTable(t: Table, next: nat) {
    next >= 1 && forall id :: id in t ==> t[id].id == id && 1 <= id < next
  }

  ghost predicate WfStore(s: Store) {
    && s.tables.Keys == s.nextIds.Keys
    && forall tn :: tn in s.tables ==> WfTable(s.tables[tn], s.nextIds[tn])
  }

  lemma {:induction false} PlaceAllKeepsWf(table: Table, next: nat, rows: seq<Row>)
    requires WfTable(table, next)
    ensures var p := PlaceAll(table, next, rows);
            && WfTable(p.table, p.next) && next <= p.next
            && table.Keys <= p.table.Keys
            && (forall id :: id in p.table ==> id in table || id in p.ids)
            && (forall id :: id in p.ids ==> id in p.table)
  {
    if rows != [] {
      PlaceAllKeepsWf(table, next, rows[..|rows| - 1]);
    }
  }

  lemma InsertedKeepsWf(s: Store, name: Str, rows: seq<Row>)
    requires WfStore(s)
    ensures WfStore(Inserted(s, name, rows))
  {
    PlaceAllKeepsWf(TableOf(s, name), NextOf(s, name), rows);
  }

  /** A row that comes without an id gets one that no stored row and no row placed before it has. */
  lemma {:induction false} FreshIds(table: Table, next: nat, rows: seq<Row>, i: nat)
    requires WfTable(table, next) && i < |rows| && rows[i].id == 0
    ensures var p := PlaceAll(table, next, rows);
            && p.ids[i] !in table && next <= p.ids[i] < p.next
            && forall j :: 0 <= j < i ==> p.ids[j] < p.ids[i]
  {
    var before := rows[..|rows| - 1];
    var q := PlaceAll(table, next, before);
    PlaceAllKeepsWf(table, next, before);
    PlaceAllKeepsWf(table, next, rows);
    if i < |before| {
      FreshIds(table, next, before, i);
    } else {
      forall j | 0 <= j < i ensures q.ids[j] < q.next {
        assert q.ids[j] in q.ids;
      }
    }
  }

  /** When no row brings an id, the ids are the next ones in order and no stored row changes. */
  lemma {:induction false} FreshRows(table: Table, next: nat, rows: seq<Row>)
    requires WfTable(table, next)
    requires forall r :: r in rows ==> r.id == 0
    ensures var p := PlaceAll(table, next, rows);
            && p.next == next + |rows|
            && (forall i :: 0 <= i < |rows| ==> p.ids[i] == next + i)
            && (forall i :: next <= i < next + |rows| ==> i in p.table && p.table[i] == rows[i - next].(id := i))
            && (forall id :: id in table ==> id in p.table && p.table[id] == table[id])
            && (forall id :: id in p.table ==> id in table || next <= id < p.next)
  {
    if rows != [] {
      var before := rows[..|rows| - 1];
      FreshRows(table, next, before);
    }
  }

  /** They are added to the rows that were there. */
  lemma {:induction false} FreshRowsAdd(table: Table, next: nat, rows: seq<Row>)
    requires WfTable(table, next)
    requires forall r :: r in rows ==> r.id == 0
    ensures |PlaceAll(table, next, rows).table| == |table| + |rows|
  {
    if rows != [] {
      var before := rows[..|rows| - 1];
      FreshRowsAdd(table, next, before);
      PlaceAllKeepsWf(table, next, before);
      assert rows[|rows| - 1] in rows;
      assert PlaceAll(table, next, before).next !in PlaceAll(table, next, before).table;
    }
  }

  /** Rows that bring their own ids. */
  predicate BringIds(rows: seq<Row>) {
    && (forall i :: 0 <= i < |rows| ==> rows[i].id != 0)
    && (forall i, j :: 0 <= i < j < |rows| ==> rows[i].id != rows[j].id)
  }

  /** Each is stored under its id. */
  lemma {:induction false} ExplicitRows(table: Table, next: nat, rows: seq<Row>, i: nat)
    requires BringIds(rows) && i < |rows|
    ensures rows[i].id in PlaceAll(table, next, rows).table && PlaceAll(table, next, rows).table[rows[i].id] == rows[i]
    ensures rows[i].id < PlaceAll(table, next, rows).next
  {
    if i < |rows| - 1 {
      ExplicitRows(table, next, rows[..|rows| - 1], i);
    }
  }

  /** No other id is touched. */
  lemma {:induction false} ExplicitElsewhere(table: Table, next: nat, rows: seq<Row>, id: nat)
    requires BringIds(rows) && forall i :: 0 <= i < |rows| ==> rows[i].id != id
    ensures id in PlaceAll(table, next, rows).table <==> id in table
    ensures id in table ==> PlaceAll(table, next, rows).table[id] == table[id]
  {
    if rows != [] {
      ExplicitElsewhere(table, next, rows[..|rows| - 1], id);
    }
  }

  /** The counter rises no further than the ids demand. */
  lemma {:induction false} ExplicitCounter(table: Table, next: nat, rows: seq<Row>)
    requires BringIds(rows)
    ensures next <= PlaceAll(table, next, rows).next
    ensures PlaceAll(table, next, rows).next == next || exists i :: 0 <= i < |rows| && PlaceAll(table, next, rows).next == rows[i].id + 1
  {
    if rows != [] {
      ExplicitCounter(table, next, rows[..|rows| - 1]);
    }
  }

  // ---- Reading in id order ---------------------------------------------------

  /** `values()` of the table's BTreeMap. */
  function Values(t: Table): (rows: seq<Row>)
    ensures |rows| == |t|
  {
    NatLeIsTotal();
    var ids := Ascending(t.Keys, NatLe);
    seq(|ids|, i requires 0 <= i < |ids| => t[ids[i]])
  }

  function GetRows(s: Store, name: Str): seq<Row> {
    Values(TableOf(s, name))
  }

  /** `rows` lists the rows of `t`, all stored under their own non-zero ids, in id order. */
  ghost predicate Enumerates(rows: seq<Row>, t: Table) {
    && (forall id :: id in t ==> t[id] in rows && t[id].id == id)
    && (forall r :: r in rows ==> r.id in t && t[r.id] == r && r.id != 0)
    && (forall i, j :: 0 <= i < j < |rows| ==> rows[i].id < rows[j].id)
  }

  lemma RowsOfIds(t: Table, next: nat, ids: seq<nat>, rows: seq<Row>)
    requires WfTable(t, next) && |rows| == |ids|
    requires forall i :: 0 <= i < |ids| ==> ids[i] in t && rows[i] == t[ids[i]]
    requires forall id :: id in t ==> id in ids
    requires forall i, j :: 0 <= i < j < |ids| ==> ids[i] < ids[j]
    ensures Enumerates(rows, t)
  {
    forall id | id in t ensures t[id] in rows {
      var i :| 0 <= i < |ids| && ids[i] == id;
      assert rows[i] == t[id];
    }
  }

  lemma ValuesOfWf(t: Table, next: nat)
    requires WfTable(t, next)
    ensures Enumerates(Values(t), t)
  {
    NatLeIsTotal();
    var ids := Ascending(t.Keys, NatLe);
    forall i | 0 <= i < |ids| ensures ids[i] in t {
      assert ids[i] in ids;
    }
    forall i, j | 0 <= i < j < |ids| ensures ids[i] < ids[j] {
      assert NatLe(ids[i], ids[j]);
    }
    RowsOfIds(t, next, ids, Values(t));
  }

  /** Inserting a table's own rows into an empty one gives the table back. */
  lemma ReinsertRestores(t: Table, rows: seq<Row>, counter: nat)
    requires Enumerates(rows, t)
    ensures var p := PlaceAll(map[], counter, rows);
            && p.table == t
            && counter <= p.next
            && (forall id :: id in t ==> id < p.next)
            && (p.next == counter || p.next - 1 in t)
  {
    var p := PlaceAll(map[], counter, rows);
    forall i | 0 <= i < |rows| ensures rows[i].id != 0 {
      assert rows[i] in rows;
    }
    ExplicitCounter(map[], counter, rows);
    forall id | id in t ensures id in p.table && p.table[id] == t[id] && id < p.next {
      var i :| 0 <= i < |rows| && rows[i] == t[id];
      ExplicitRows(map[], counter, rows, i);
    }
    forall id | id in p.table ensures id in t {
      if id !in t {
        forall i | 0 <= i < |rows| ensures rows[i].id != id {
          assert rows[i] in rows;
        }
        ExplicitElsewhere(map[], counter, rows, id);
      }
    }
    if p.next != counter {
      var i :| 0 <= i < |rows| && p.next == rows[i].id + 1;
      assert rows[i] in rows;
    }
    assert p.table.Keys == t.Keys;
  }

  // ---- Index names -------------------------------------------------------------

  /** The name under which an index's data is kept: "table:index", lowercased. */
  function EntryName(tn: Str, indexName: Str): Str {
    tn + [COLON] + Lower(indexName)
  }

  predicate ColonFree(name: Str) {
    COLON !in name
  }

  function Cleared(s: Store, name: Str): Store {
    var tn := Lower(name);
    Store(s.tables - {tn}, s.nextIds - {tn}, map k | k in s.indexData && !StartsWith(k, tn + [COLON]) :: s.indexData[k])
  }

  lemma ClearedKeepsWf(s: Store, name: Str)
    requires WfStore(s)
    ensures WfStore(Cleared(s, name))
  {
  }

  /** DROP TABLE `t` takes an index's data exactly when the index's entry begins with the table's name and a colon. */
  lemma EntryTaken(s: Store, t: Str, u: Str, indexName: Str)
    requires EntryName(Lower(u), indexName) in s.indexData
    ensures EntryName(Lower(u), indexName) !in Cleared(s, t).indexData <==> Overlaps(Lower(t), Lower(u), indexName)
    ensures EntryName(Lower(u), indexName) in Cleared(s, t).indexData ==>
              Cleared(s, t).indexData[EntryName(Lower(u), indexName)] == s.indexData[EntryName(Lower(u), indexName)]
  {
    OverlapIsPrefix(Lower(t), Lower(u), indexName);
  }

  /**
    * Index `name` of table `u` lies among the entries of table `t`: it is `t`'s own, or one name reaches over a colon
    * into the other.
    */
  predicate Overlaps(t: Str, u: Str, name: Str) {
    || t == u
    || StartsWith(u, t + [COLON])
    || (StartsWith(t, u + [COLON]) && StartsWith(Lower(name), t[|u| + 1..] + [COLON]))
  }

  lemma OverlapIsPrefix(t: Str, u: Str, name: Str)
    ensures StartsWith(EntryName(u, name), t + [COLON]) <==> Overlaps(t, u, name)
  {
    var entry, p, low := EntryName(u, name), t + [COLON], Lower(name);
    if |t| < |u| {
      assert StartsWith(entry, p) ==> entry[..|p|] == u[..|p|];
      assert StartsWith(u, p) ==> entry[..|p|] == u[..|p|];
    } else if |t| == |u| {
      assert entry[..|p|] == u + [COLON];
      if StartsWith(entry, p) {
        assert t == entry[..|p|][..|t|] && u == entry[..|u|];
      }
    } else {
      var x := t[|u| + 1..];
      if StartsWith(t, u + [COLON]) {
        assert t == (u + [COLON]) + x && p == (u + [COLON]) + (x + [COLON]);
        assert entry == (u + [COLON]) + low;
        PrefixBehind(u + [COLON], low, x + [COLON]);
      }
    }
  }

  lemma PrefixBehind(a: Str, x: Str, y: Str)
    ensures StartsWith(a + x, a + y) <==> StartsWith(x, y)
  {
    if |y| <= |x| {
      assert (a + x)[..|a + y|] == a + x[..|y|];
      assert (a + x[..|y|])[|a|..] == x[..|y|] && (a + y)[|a|..] == y;
    }
  }

  /**
    * Two indexes share an entry exactly when they are one index, or one table's name and colon reach into the other's
    * index name.
    */
  lemma SharedEntry(u: Str, a: Str, v: Str, b: Str)
    ensures EntryName(u, a) == EntryName(v, b)
            <==> || (u == v && SameName(a, b))
                 || (StartsWith(v, u + [COLON]) && Lower(a) == v[|u| + 1..] + [COLON] + Lower(b))
                 || (StartsWith(u, v + [COLON]) && Lower(b) == u[|v| + 1..] + [COLON] + Lower(a))
  {
    if |u| == |v| {
      assert EntryName(u, a)[..|u|] == u && EntryName(v, b)[..|v|] == v;
      assert EntryName(u, a)[|u| + 1..] == Lower(a) && EntryName(v, b)[|v| + 1..] == Lower(b);
    } else if |u| < |v| {
      SharedByLonger(u, a, v, b);
    } else {
      SharedByLonger(v, b, u, a);
    }
  }

  lemma SharedByLonger(u: Str, a: Str, v: Str, b: Str)
    requires |u| < |v|
    ensures EntryName(u, a) == EntryName(v, b) <==> StartsWith(v, u + [COLON]) && Lower(a) == v[|u| + 1..] + [COLON] + Lower(b)
  {
    var p := u + [COLON];
    assert EntryName(u, a)[..|p|] == p && EntryName(u, a)[|p|..] == Lower(a);
    assert EntryName(v, b)[..|p|] == v[..|p|];
    assert EntryName(v, b)[|p|..] == v[|p|..] + [COLON] + Lower(b);
    if StartsWith(v, p) && Lower(a) == v[|p|..] + [COLON] + Lower(b) {
      assert EntryName(u, a) == p + Lower(a);
      assert EntryName(v, b) == v[..|p|] + (v[|p|..] + [COLON] + Lower(b));
    }
  }

  lemma ColonWithin(s: Str, t: Str)
    requires ColonFree(s)
    ensures !StartsWith(s, t + [COLON])
  {
    if |t| < |s| {
      assert s[..|t| + 1][|t|] == s[|t|] && s[|t|] in s;
    }
  }

  /** Where table names hold no colon, neither happens. */
  lemma ColonFreeNamesApart(t: Str, u: Str, a: Str, b: Str)
    requires ColonFree(t) && ColonFree(u) && t != u
    ensures !Overlaps(t, u, a) && EntryName(t, a) != EntryName(u, b)
  {
    ColonWithin(t, u);
    ColonWithin(u, t);
    SharedEntry(t, a, u, b);
  }

  // ---- The structure that is updated in place ------------------------------------

  class Storage {
    var tables: map<Str, Table>
    var nextIds: map<Str, nat>
    var indexData: map<Str, Postings>

    ghost function View(): Store
      reads this
    {
      Store(tables, nextIds, indexData)
    }

    constructor ()
      ensures View() == EmptyStore
    {
      tables, nextIds, indexData := map[], map[], map[];
    }

    method InsertRows(name: Str, rows: seq<Row>) returns (ids: seq<nat>)
      modifies this
      ensures View() == old(Inserted(View(), name, rows))
      ensures ids == old(InsertedIds(View(), name, rows))
    {
      var tn := Lower(name);
      var entry: Table := if tn in tables then tables[tn] else map[];
      var next: nat := if tn in nextIds then nextIds[tn] else 1;
      ghost var from := Placement(entry, next, []);
      ids := [];
      for i := 0 to |rows|
        invariant View() == old(View())
        invariant Placement(entry, next, ids) == PlaceAll(from.table, from.next, rows[..i])
      {
        assert rows[..i + 1][..i] == rows[..i];
        var row := rows[i];
        if row.id == 0 {
          row := row.(id := next);
          next := next + 1;
        } else if row.id >= next {
          next := row.id + 1;
        }
        ids := ids + [row.id];
        entry := entry[row.id := row];
      }
      assert rows[..|rows|] == rows;
      tables := tables[tn := entry];
      nextIds := nextIds[tn := next];
    }

    method ClearTable(name: Str)
      modifies this
      ensures View() == old(Cleared(View(), name))
    {
      var tn := Lower(name);
      var names := set k | k in indexData && StartsWith(k, tn + [COLON]);
      var left := names;
      while left != {}
        invariant left <= names
        invariant tables == old(tables) && nextIds == old(nextIds)
        invariant indexData == old(indexData) - (names - left)
      {
        var k :| k in left;
        indexData := indexData - {k};
        left := left - {k};
      }
      tables := tables - {tn};
      nextIds := nextIds - {tn};
    }
  }
}
