/** `build_checkpoint_data` and `replay_checkpoint` of `src/engine/wal.rs`. */
module Checkpoint {
  import opened Prelude
  import opened Order
  import opened Types
  import opened Index
  import opened Storage
  import opened Catalog
  import opened Bincode
  import opened WalBytes

  // ---- Hash maps as they are listed ------------------------------------------------------------

  /** A hash map in some iteration order. */
  type Listing<V> = seq<(Str, V)>

  predicate DistinctKeys<V>(l: Listing<V>) {
    forall i, j :: 0 <= i < j < |l| ==> l[i].0 != l[j].0
  }

  /** Collecting a listing into a map: of equal keys the last one stays. */
  function ToMap<V, W>(l: Listing<V>, f: V -> W): map<Str, W> {
    if l == [] then map[] else ToMap(l[..|l| - 1], f)[l[|l| - 1].0 := f(l[|l| - 1].1)]
  }

  datatype DatabaseListing = DatabaseListing(name: Str, tables: Listing<TableDef>, indexes: Listing<seq<IndexDef>>)

  datatype CatalogListing = CatalogListing(databases: Listing<DatabaseListing>, sequences: Listing<nat>)

  function Same<V>(v: V): V { v }

  function ToDatabase(l: DatabaseListing): DatabaseDef {
    DatabaseDef(l.name, ToMap(l.tables, Same), ToMap(l.indexes, Same))
  }

  function ToDefinitions(l: CatalogListing): Definitions {
    Definitions(ToMap(l.databases, ToDatabase), ToMap(l.sequences, Same))
  }

  /** The listing is of `c`: each key of each of its maps once. */
  predicate Lists(l: CatalogListing, c: Definitions) {
    && DistinctKeys(l.databases) && DistinctKeys(l.sequences)
    && (forall e :: e in l.databases ==> DistinctKeys(e.1.tables) && DistinctKeys(e.1.indexes))
    && ToDefinitions(l) == c
  }

  // ---- The catalog's code ---------------------------------------------------------------------------

  function EncTable(e: (Str, TableDef)): Bytes {
    EncBytes(e.0) + (EncBytes(e.1.name) + EncSeq(EncColumn, e.1.columns))
  }

  function DecTable(b: Bytes): Parsed<(Str, TableDef)> {
    var (key, b1) :- DecStr(b);
    var (name, b2) :- DecStr(b1);
    var (columns, b3) :- DecSeq(DecColumn, b2);
    Some(((key, TableDef(name, columns)), b3))
  }

  function EncIndexList(e: (Str, seq<IndexDef>)): Bytes {
    EncBytes(e.0) + EncSeq(EncIndexDef, e.1)
  }

  function DecIndexList(b: Bytes): Parsed<(Str, seq<IndexDef>)> {
    var (key, b1) :- DecStr(b);
    var (defs, b2) :- DecSeq(DecIndexDef, b1);
    Some(((key, defs), b2))
  }

  function EncDatabase(e: (Str, DatabaseListing)): Bytes {
    EncBytes(e.0) + (EncBytes(e.1.name) + (EncSeq(EncTable, e.1.tables) + EncSeq(EncIndexList, e.1.indexes)))
  }

  function DecDatabase(b: Bytes): Parsed<(Str, DatabaseListing)> {
    var (key, b1) :- DecStr(b);
    var (name, b2) :- DecStr(b1);
    var (tables, b3) :- DecSeq(DecTable, b2);
    var (indexes, b4) :- DecSeq(DecIndexList, b3);
    Some(((key, DatabaseListing(name, tables, indexes)), b4))
  }

  function EncSequence(e: (Str, nat)): Bytes {
    EncBytes(e.0) + Little(e.1, 8)
  }

  function DecSequence(b: Bytes): Parsed<(Str, nat)> {
    var (key, b1) :- DecStr(b);
    var (n, b2) :- DecLittle(8, b1);
    Some(((key, n), b2))
  }

  function EncCatalog(l: CatalogListing): Bytes {
    EncSeq(EncDatabase, l.databases) + EncSeq(EncSequence, l.sequences)
  }

  function DecCatalog(b: Bytes): Parsed<CatalogListing> {
    var (databases, b1) :- DecSeq(DecDatabase, b);
    var (sequences, b2) :- DecSeq(DecSequence, b1);
    Some((CatalogListing(databases, sequences), b2))
  }

  predicate FitsTable(e: (Str, TableDef)) {
    FitsStr(e.0) && FitsStr(e.1.name) && FitsColumns(e.1.columns)
  }

  predicate FitsIndexList(e: (Str, seq<IndexDef>)) {
    FitsStr(e.0) && |e.1| < U64 && forall d :: d in e.1 ==> FitsIndexDef(d)
  }

  predicate FitsDatabase(e: (Str, DatabaseListing)) {
    && FitsStr(e.0) && FitsStr(e.1.name)
    && |e.1.tables| < U64 && (forall t :: t in e.1.tables ==> FitsTable(t))
    && |e.1.indexes| < U64 && (forall t :: t in e.1.indexes ==> FitsIndexList(t))
  }

  predicate FitsSequence(e: (Str, nat)) {
    FitsStr(e.0) && e.1 < U64
  }

  predicate FitsCatalog(l: CatalogListing) {
    && |l.databases| < U64 && (forall e :: e in l.databases ==> FitsDatabase(e))
    && |l.sequences| < U64 && (forall e :: e in l.sequences ==> FitsSequence(e))
  }

  lemma TableCodes(e: (Str, TableDef))
    requires FitsTable(e)
    ensures Codes(EncTable, DecTable, e)
  {
    forall rest: Bytes ensures DecTable(EncTable(e) + rest) == Some((e, rest)) {
      StrFieldReads(e.0, EncBytes(e.1.name) + EncSeq(EncColumn, e.1.columns), rest);
      StrFieldReads(e.1.name, EncSeq(EncColumn, e.1.columns), rest);
      ColumnsRead(e.1.columns, rest);
    }
  }

  lemma IndexListCodes(e: (Str, seq<IndexDef>))
    requires FitsIndexList(e)
    ensures Codes(EncIndexList, DecIndexList, e)
  {
    forall d | d in e.1 ensures Codes(EncIndexDef, DecIndexDef, d) { IndexDefCodes(d); }
    forall rest: Bytes ensures DecIndexList(EncIndexList(e) + rest) == Some((e, rest)) {
      StrFieldReads(e.0, EncSeq(EncIndexDef, e.1), rest);
      DecSeqReads(EncIndexDef, DecIndexDef, e.1, rest);
    }
  }

  lemma DatabaseCodes(e: (Str, DatabaseListing))
    requires FitsDatabase(e)
    ensures Codes(EncDatabase, DecDatabase, e)
  {
    forall t | t in e.1.tables ensures Codes(EncTable, DecTable, t) { TableCodes(t); }
    forall t | t in e.1.indexes ensures Codes(EncIndexList, DecIndexList, t) { IndexListCodes(t); }
    forall rest: Bytes ensures DecDatabase(EncDatabase(e) + rest) == Some((e, rest)) {
      var t3 := EncSeq(EncIndexList, e.1.indexes);
      var t2 := EncSeq(EncTable, e.1.tables) + t3;
      StrFieldReads(e.0, EncBytes(e.1.name) + t2, rest);
      StrFieldReads(e.1.name, t2, rest);
      Assoc(EncSeq(EncTable, e.1.tables), t3, rest);
      DecSeqReads(EncTable, DecTable, e.1.tables, t3 + rest);
      DecSeqReads(EncIndexList, DecIndexList, e.1.indexes, rest);
    }
  }

  lemma SequenceCodes(e: (Str, nat))
    requires FitsSequence(e)
    ensures Codes(EncSequence, DecSequence, e)
  {
    Widths();
    forall rest: Bytes ensures DecSequence(EncSequence(e) + rest) == Some((e, rest)) {
      StrFieldReads(e.0, Little(e.1, 8), rest);
      DecLittleReads(e.1, 8, rest);
    }
  }

  lemma CatalogReads(l: CatalogListing, rest: Bytes)
    requires FitsCatalog(l)
    ensures DecCatalog(EncCatalog(l) + rest) == Some((l, rest))
  {
    forall e | e in l.databases ensures Codes(EncDatabase, DecDatabase, e) { DatabaseCodes(e); }
    forall e | e in l.sequences ensures Codes(EncSequence, DecSequence, e) { SequenceCodes(e); }
    Assoc(EncSeq(EncDatabase, l.databases), EncSeq(EncSequence, l.sequences), rest);
    DecSeqReads(EncDatabase, DecDatabase, l.databases, EncSeq(EncSequence, l.sequences) + rest);
    DecSeqReads(EncSequence, DecSequence, l.sequences, rest);
  }

  // ---- The code's length does not depend on the iteration order ----------------------------------------

  /** The sum of the sizes of a map's entries. */
  function MapSize<W>(m: map<Str, W>, size: (Str, W) -> nat): nat
    decreases |m|
  {
    if m == map[] then 0
    else
      StrLeIsTotal();
      LeastExists(m.Keys, StrLe);
      var k :| k in m && forall j | j in m :: StrLe(k, j);
      size(k, m[k]) + MapSize(m - {k}, size)
  }

  lemma {:induction false} MapSizeAnyKey<W>(m: map<Str, W>, size: (Str, W) -> nat, k: Str)
    requires k in m
    ensures MapSize(m, size) == size(k, m[k]) + MapSize(m - {k}, size)
  {
    var first :| first in m && MapSize(m, size) == size(first, m[first]) + MapSize(m - {first}, size);
    if first != k {
      MapSizeAnyKey(m - {first}, size, k);
      MapSizeAnyKey(m - {k}, size, first);
      assert m - {first} - {k} == m - {k} - {first};
    }
  }

  /** Each listed entry's code is as long as `size` says of what it stands for. */
  ghost predicate SizedBy<V, W>(l: Listing<V>, enc: ((Str, V)) -> Bytes, f: V -> W, size: (Str, W) -> nat) {
    forall e :: e in l ==> |enc(e)| == size(e.0, f(e.1))
  }

  lemma {:induction false} ToMapKeys<V, W>(l: Listing<V>, f: V -> W, k: Str)
    requires k in ToMap(l, f)
    ensures exists i :: 0 <= i < |l| && l[i].0 == k
  {
    if l[|l| - 1].0 != k {
      ToMapKeys(l[..|l| - 1], f, k);
      var i :| 0 <= i < |l| - 1 && l[..|l| - 1][i].0 == k;
      assert l[i].0 == k;
    }
  }

  lemma LastKeyIsNew<V, W>(l: Listing<V>, f: V -> W)
    requires DistinctKeys(l) && l != []
    ensures l[|l| - 1].0 !in ToMap(l[..|l| - 1], f) && DistinctKeys(l[..|l| - 1])
  {
    if l[|l| - 1].0 in ToMap(l[..|l| - 1], f) {
      ToMapKeys(l[..|l| - 1], f, l[|l| - 1].0);
    }
  }

  lemma OneMoreEntry<W>(m: map<Str, W>, size: (Str, W) -> nat, k: Str, v: W)
    requires k !in m
    ensures MapSize(m[k := v], size) == size(k, v) + MapSize(m, size)
  {
    var bigger := m[k := v];
    MapSizeAnyKey(bigger, size, k);
    assert bigger - {k} == m;
  }

  lemma {:induction false} ListingSize<V, W>(l: Listing<V>, enc: ((Str, V)) -> Bytes, f: V -> W, size: (Str, W) -> nat)
    requires DistinctKeys(l) && SizedBy(l, enc, f, size)
    ensures |EncAll(enc, l)| == MapSize(ToMap(l, f), size)
  {
    if l != [] {
      var init, last := l[..|l| - 1], l[|l| - 1];
      LastKeyIsNew(l, f);
      EncAllBack(enc, l);
      assert |enc(last)| == size(last.0, f(last.1));
      assert SizedBy(init, enc, f, size);
      ListingSize(init, enc, f, size);
      OneMoreEntry(ToMap(init, f), size, last.0, f(last.1));
    }
  }

  function SizeTable(key: Str, t: TableDef): nat {
    |EncTable((key, t))|
  }

  function SizeIndexList(key: Str, defs: seq<IndexDef>): nat {
    |EncIndexList((key, defs))|
  }

  function SizeDatabase(key: Str, d: DatabaseDef): nat {
    SizeStr(key) + SizeStr(d.name) + 8 + MapSize(d.tables, SizeTable) + 8 + MapSize(d.indexes, SizeIndexList)
  }

  function SizeSequence(key: Str, n: nat): nat {
    SizeStr(key) + 8
  }

  /** `serialized_size(&catalog)`, a function of its contents alone. */
  function SizeCatalog(c: Definitions): nat {
    8 + MapSize(c.databases, (k, d) => SizeDatabase(k, d)) + 8 + MapSize(c.sequences, SizeSequence)
  }

  lemma CatalogSize(l: CatalogListing, c: Definitions)
    requires Lists(l, c)
    ensures |EncCatalog(l)| == SizeCatalog(c)
  {
    var size: (Str, DatabaseDef) -> nat := (k, d) => SizeDatabase(k, d);
    forall e | e in l.databases ensures |EncDatabase(e)| == size(e.0, ToDatabase(e.1)) {
      ListingSize(e.1.tables, EncTable, Same, SizeTable);
      ListingSize(e.1.indexes, EncIndexList, Same, SizeIndexList);
    }
    ListingSize(l.databases, EncDatabase, ToDatabase, size);
    ListingSize(l.sequences, EncSequence, Same, SizeSequence);
  }

  // ---- The tables -----------------------------------------------------------------------------------------

  function EncSaved(e: (Str, seq<Row>)): Bytes {
    EncBytes(e.0) + EncSeq(EncRow, e.1)
  }

  predicate FitsSaved(e: (Str, seq<Row>)) {
    FitsStr(e.0) && FitsRows(e.1)
  }

  function SavedUnder<K, T, R>(names: seq<K>, tables: map<K, T>, rowsOf: T -> R): (saved: seq<(K, R)>)
    requires forall n :: n in names ==> n in tables
    ensures |saved| == |names|
    ensures forall i :: 0 <= i < |saved| ==> saved[i] == (names[i], rowsOf(tables[names[i]]))
  {
    if names == [] then []
    else
      assert names[0] in names;
      [(names[0], rowsOf(tables[names[0]]))] + SavedUnder(names[1..], tables, rowsOf)
  }

  /** `saved` holds each table once, with its rows. */
  ghost predicate SavesAll<K, T, R>(saved: seq<(K, R)>, tables: map<K, T>, rowsOf: T -> R) {
    && |saved| == |tables|
    && (forall i :: 0 <= i < |saved| ==> saved[i].0 in tables && saved[i].1 == rowsOf(tables[saved[i].0]))
    && (forall i, j :: 0 <= i < j < |saved| ==> saved[i].0 != saved[j].0)
    && (forall tn :: tn in tables ==> exists e :: e in saved && e.0 == tn)
  }

  lemma SavedOnce<K, T, R>(names: seq<K>, tables: map<K, T>, rowsOf: T -> R)
    requires |names| == |tables|
    requires forall n :: n in names <==> n in tables
    requires forall i, j :: 0 <= i < j < |names| ==> names[i] != names[j]
    ensures SavesAll(SavedUnder(names, tables, rowsOf), tables, rowsOf)
  {
    var saved := SavedUnder(names, tables, rowsOf);
    forall i | 0 <= i < |saved| ensures saved[i].0 in tables && saved[i].1 == rowsOf(tables[saved[i].0]) {
      assert names[i] in names;
    }
    forall tn | tn in tables ensures exists e :: e in saved && e.0 == tn {
      assert tn in names;
      var i :| 0 <= i < |names| && names[i] == tn;
      assert saved[i] in saved;
    }
  }

  function TableNames(tables: map<Str, Table>): (names: seq<Str>)
    ensures |names| == |tables|
    ensures forall n :: n in names <==> n in tables
    ensures forall i, j :: 0 <= i < j < |names| ==> names[i] != names[j]
  {
    StrLeIsTotal();
    Ascending(tables.Keys, StrLe)
  }

  /** Every table with its rows, in the order of the names. */
  function Saved(s: Store): (saved: seq<(Str, seq<Row>)>)
    ensures SavesAll(saved, s.tables, Values)
  {
    SavedOnce(TableNames(s.tables), s.tables, Values);
    SavedUnder(TableNames(s.tables), s.tables, Values)
  }

  /** The checkpoint of a catalog whose maps are iterated as `l` lists them, and of a storage. */
  function Build(l: CatalogListing, s: Store): Bytes {
    Framed(255, EncCatalog(l) + EncSeq(EncSaved, Saved(s)))
  }

  /** The loop over the saved tables, on the bytes that are left; `None` is a decoding error. */
  function LoadTables(n: nat, b: Bytes, s: Store): Option<Store> {
    if n == 0 || b == [] then Some(s)
    else
      var (name, b1) :- DecStr(b);
      if b1 == [] then Some(s)
      else
        var (rows, _) :- DecSeq(DecRow, b1);
        var size := |EncSeq(EncRow, rows)|;
        LoadTables(n - 1, if size <= |b1| then b1[size..] else [], Inserted(s, name, rows))
  }

  datatype Restored = Restored(defs: Definitions, store: Store) | Invalid | Panicked

  function Load(data: Bytes): Restored {
    if |data| < HEADER_SIZE || data[..2] != MAGIC || data[6] != 255 then Invalid
    else
      var n := EntryLength(data);
      var end := if n < |data| then n else |data|;
      if end < HEADER_SIZE then Restored.Panicked else LoadPayload(data[HEADER_SIZE..end])
  }

  /** The number of tables and the tables. */
  function LoadCounted(b: Bytes): Option<Store> {
    var (count, rest) :- DecLittle(8, b);
    LoadTables(count, rest, EmptyStore)
  }

  function LoadPayload(payload: Bytes): Restored {
    match DecCatalog(payload)
    case None => Invalid
    case Some((l, _)) =>
      var defs := ToDefinitions(l);
      var pos := SizeCatalog(defs);
      if pos >= |payload| then Restored(defs, EmptyStore)
      else
        match LoadCounted(payload[pos..])
        case None => Invalid
        case Some(s) => Restored(defs, s)
  }

  function InsertAll(s: Store, saved: seq<(Str, seq<Row>)>): Store
    decreases |saved|
  {
    if saved == [] then s else InsertAll(Inserted(s, saved[0].0, saved[0].1), saved[1..])
  }

  lemma SavedReads(e: (Str, seq<Row>), rest: Bytes)
    requires FitsSaved(e)
    ensures DecStr(EncSaved(e) + rest) == Some((e.0, EncSeq(EncRow, e.1) + rest))
    ensures DecSeq(DecRow, EncSeq(EncRow, e.1) + rest) == Some((e.1, rest))
    ensures (EncSeq(EncRow, e.1) + rest)[|EncSeq(EncRow, e.1)|..] == rest
  {
    StrFieldReads(e.0, EncSeq(EncRow, e.1), rest);
    RowsRead(e.1, rest);
  }

  lemma {:induction false} SavedTablesLoad(saved: seq<(Str, seq<Row>)>, s: Store)
    requires forall e :: e in saved ==> FitsSaved(e)
    ensures LoadTables(|saved|, EncAll(EncSaved, saved), s) == Some(InsertAll(s, saved))
  {
    if saved != [] {
      var rest := EncAll(EncSaved, saved[1..]);
      SavedReads(saved[0], rest);
      SavedTablesLoad(saved[1..], Inserted(s, saved[0].0, saved[0].1));
    }
  }

  /** The counter that inserting a table's rows leaves: one above the largest id, or 1. */
  ghost predicate JustAbove(next: nat, t: Table) {
    && next >= 1
    && (forall id :: id in t ==> id < next)
    && (next == 1 || next - 1 in t)
  }

  /** `saved` lists tables of `source` once each, under lowercase names. */
  ghost predicate ListsTables(saved: seq<(Str, seq<Row>)>, source: map<Str, Table>) {
    && (forall i, j :: 0 <= i < j < |saved| ==> saved[i].0 != saved[j].0)
    && (forall e :: e in saved ==> Lower(e.0) == e.0 && e.0 in source && Enumerates(e.1, source[e.0]))
  }

  /** In `r`, table `name` is as in `source` and its counter as low as it can be. */
  ghost predicate IsRestored(r: Store, name: Str, source: map<Str, Table>) {
    name in r.tables && name in r.nextIds && name in source && r.tables[name] == source[name] && JustAbove(r.nextIds[name], source[name])
  }

  lemma OneRestored(s: Store, name: Str, rows: seq<Row>, source: map<Str, Table>)
    requires Lower(name) == name && name in source && Enumerates(rows, source[name])
    requires name !in s.tables && name !in s.nextIds
    ensures IsRestored(Inserted(s, name, rows), name, source)
  {
    ReinsertRestores(source[name], rows, 1);
  }

  ghost predicate Has(s: Store, name: Str) {
    name in s.tables || name in s.nextIds
  }

  /** Inserting other tables leaves a table and its counter alone. */
  lemma {:induction false} InsertAllSpares(s: Store, saved: seq<(Str, seq<Row>)>, name: Str)
    requires forall e :: e in saved ==> Lower(e.0) != name
    ensures (name in InsertAll(s, saved).tables <==> name in s.tables) && (name in InsertAll(s, saved).nextIds <==> name in s.nextIds)
    ensures name in s.tables ==> InsertAll(s, saved).tables[name] == s.tables[name]
    ensures name in s.nextIds ==> InsertAll(s, saved).nextIds[name] == s.nextIds[name]
    decreases |saved|
  {
    if saved != [] {
      assert saved[0] in saved;
      InsertAllSpares(Inserted(s, saved[0].0, saved[0].1), saved[1..], name);
    }
  }

  lemma LaterNames(saved: seq<(Str, seq<Row>)>, source: map<Str, Table>)
    requires ListsTables(saved, source) && saved != []
    ensures ListsTables(saved[1..], source)
    ensures forall e :: e in saved[1..] ==> Lower(e.0) == e.0 && e.0 != saved[0].0
  {
    forall e | e in saved[1..] ensures e in saved && e.0 != saved[0].0 {
      var i :| 0 <= i < |saved| - 1 && saved[1..][i] == e;
      assert saved[i + 1] == e;
    }
  }

  /** Inserting the listed tables restores each of them. */
  lemma {:induction false} InsertAllRestores(s: Store, saved: seq<(Str, seq<Row>)>, source: map<Str, Table>, e: (Str,
      seq<Row>))
    requires ListsTables(saved, source) && e in saved
    requires !Has(s, e.0)
    ensures IsRestored(InsertAll(s, saved), e.0, source)
    decreases |saved|
  {
    var first := saved[0];
    assert first in saved;
    var s1 := Inserted(s, first.0, first.1);
    LaterNames(saved, source);
    if e == first {
      OneRestored(s, first.0, first.1, source);
      InsertAllSpares(s1, saved[1..], first.0);
    } else {
      assert e in saved[1..];
      InsertAllRestores(s1, saved[1..], source, e);
    }
  }

  lemma SavedLists(s: Store, saved: seq<(Str, seq<Row>)>)
    requires WfStore(s)
    requires forall tn :: tn in s.tables ==> Lower(tn) == tn
    requires SavesAll(saved, s.tables, Values)
    ensures ListsTables(saved, s.tables)
  {
    forall i | 0 <= i < |saved| ensures Enumerates(saved[i].1, s.tables[saved[i].0]) {
      ValuesOfWf(s.tables[saved[i].0], s.nextIds[saved[i].0]);
    }
  }

  predicate FitsTableData(name: Str, t: Table) {
    FitsStr(name) && |t| < U64 && forall id :: id in t ==> FitsRow(t[id])
  }

  predicate FitsStore(s: Store) {
    |s.tables| < U64 && forall tn :: tn in s.tables ==> FitsTableData(tn, s.tables[tn])
  }

  lemma SavedFits(s: Store, saved: seq<(Str, seq<Row>)>)
    requires WfStore(s) && FitsStore(s)
    requires forall i :: 0 <= i < |saved| ==> saved[i].0 in s.tables && saved[i].1 == Values(s.tables[saved[i].0])
    ensures forall e :: e in saved ==> FitsSaved(e)
  {
    forall i | 0 <= i < |saved| ensures FitsSaved(saved[i]) {
      var name := saved[i].0;
      ValuesOfWf(s.tables[name], s.nextIds[name]);
      assert FitsTableData(name, s.tables[name]);
    }
  }

  lemma PayloadSteps(payload: Bytes, l: CatalogListing, tables: Bytes, pos: nat, count: nat, rest: Bytes, s: Store)
    requires DecCatalog(payload) == Some((l, tables)) && SizeCatalog(ToDefinitions(l)) == pos < |payload|
    requires DecLittle(8, payload[pos..]) == Some((count, rest)) && LoadTables(count, rest, EmptyStore) == Some(s)
    ensures LoadPayload(payload) == Restored(ToDefinitions(l), s)
  {
  }

  lemma PayloadLoads(l: CatalogListing, c: Definitions, saved: seq<(Str, seq<Row>)>)
    requires Lists(l, c) && FitsCatalog(l)
    requires |saved| < U64 && forall e :: e in saved ==> FitsSaved(e)
    ensures LoadPayload(EncCatalog(l) + EncSeq(EncSaved, saved)) == Restored(c, InsertAll(EmptyStore, saved))
  {
    var catalog, rest := EncCatalog(l), EncAll(EncSaved, saved);
    var tables := Little(|saved|, 8) + rest;
    var pos := SizeCatalog(c);
    CatalogReads(l, tables);
    CatalogSize(l, c);
    assert (catalog + tables)[pos..] == tables;
    Widths();
    DecLittleReads(|saved|, 8, rest);
    SavedTablesLoad(saved, EmptyStore);
    PayloadSteps(catalog + tables, l, tables, pos, |saved|, rest, InsertAll(EmptyStore, saved));
  }

  lemma FrameLoads(payload: Bytes, rest: Bytes)
    requires HEADER_SIZE + |payload| < 0x1_0000_0000
    ensures Load(Framed(255, payload) + rest) == LoadPayload(payload)
  {
    HeaderReads(255, payload, rest);
  }

  /** `r` holds the tables of `source` and nothing else. */
  ghost predicate IsRestoredStore(r: Store, source: map<Str, Table>) {
    && r.tables == source && r.indexData == map[] && r.nextIds.Keys == source.Keys
    && forall tn :: tn in source ==> JustAbove(r.nextIds[tn], source[tn])
  }

  lemma SavedTablesRestore(saved: seq<(Str, seq<Row>)>, source: map<Str, Table>)
    requires ListsTables(saved, source)
    requires forall tn :: tn in source ==> exists e :: e in saved && e.0 == tn
    ensures IsRestoredStore(InsertAll(EmptyStore, saved), source)
  {
    var r := InsertAll(EmptyStore, saved);
    forall tn | tn in source ensures IsRestored(r, tn, source) {
      var e :| e in saved && e.0 == tn;
      InsertAllRestores(EmptyStore, saved, source, e);
    }
    forall k | Has(r, k) ensures k in source {
      if k !in source {
        InsertAllSpares(EmptyStore, saved, k);
      }
    }
    InsertAllSparesIndexes(EmptyStore, saved);
    assert r.tables.Keys == source.Keys && r.nextIds.Keys == source.Keys;
  }

  lemma {:induction false} InsertAllSparesIndexes(s: Store, saved: seq<(Str, seq<Row>)>)
    ensures InsertAll(s, saved).indexData == s.indexData
    decreases |saved|
  {
    if saved != [] {
      InsertAllSparesIndexes(Inserted(s, saved[0].0, saved[0].1), saved[1..]);
    }
  }

  lemma SavedCheckpointLoads(l: CatalogListing, c: Definitions, s: Store, saved: seq<(Str, seq<Row>)>, rest: Bytes)
    requires Lists(l, c) && FitsCatalog(l)
    requires WfStore(s) && FitsStore(s) && forall tn :: tn in s.tables ==> Lower(tn) == tn
    requires SavesAll(saved, s.tables, Values)
    requires HEADER_SIZE + |EncCatalog(l) + EncSeq(EncSaved, saved)| < 0x1_0000_0000
    ensures Load(Framed(255, EncCatalog(l) + EncSeq(EncSaved, saved)) + rest) == Restored(c, InsertAll(EmptyStore, saved))
    ensures IsRestoredStore(InsertAll(EmptyStore, saved), s.tables)
  {
    FrameLoads(EncCatalog(l) + EncSeq(EncSaved, saved), rest);
    SavedFits(s, saved);
    PayloadLoads(l, c, saved);
    SavedLists(s, saved);
    SavedTablesRestore(saved, s.tables);
  }

  /**
    * Loading a checkpoint gives back the catalog and every table, empty ones included; counters are as low as they can
    * be, indexes are gone, and whatever was appended behind the checkpoint is ignored.
    */
  lemma CheckpointRoundTrip(l: CatalogListing, c: Definitions, s: Store, rest: Bytes)
    requires Lists(l, c) && FitsCatalog(l)
    requires WfStore(s) && FitsStore(s) && forall tn :: tn in s.tables ==> Lower(tn) == tn
    requires |Build(l, s)| < 0x1_0000_0000
    ensures Load(Build(l, s) + rest).Restored? && Load(Build(l, s) + rest).defs == c
    ensures IsRestoredStore(Load(Build(l, s) + rest).store, s.tables)
  {
    SavedCheckpointLoads(l, c, s, Saved(s), rest);
  }

  // ---- The loops ---------------------------------------------------------------------------------------------

  lemma OneMoreSaved(payload: Bytes, head: Bytes, saved: seq<(Str, seq<Row>)>, i: nat)
    requires i < |saved| && payload == head + EncAll(EncSaved, saved[..i])
    ensures (payload + EncBytes(saved[i].0)) + EncSeq(EncRow, saved[i].1) == head + EncAll(EncSaved, saved[..i + 1])
  {
    EncAllBack(EncSaved, saved[..i + 1]);
    assert saved[..i + 1][..i] == saved[..i];
    Assoc(payload, EncBytes(saved[i].0), EncSeq(EncRow, saved[i].1));
    Assoc(head, EncAll(EncSaved, saved[..i]), EncSaved(saved[i]));
  }

  /** Appends table after table. */
  method AppendTables(head: Bytes, tables: seq<(Str, seq<Row>)>) returns (payload: Bytes)
    ensures payload == head + EncAll(EncSaved, tables)
  {
    payload := head;
    for i := 0 to |tables|
      invariant payload == head + EncAll(EncSaved, tables[..i])
    {
      OneMoreSaved(payload, head, tables, i);
      payload := payload + EncBytes(tables[i].0);
      payload := payload + EncSeq(EncRow, tables[i].1);
    }
    assert tables[..|tables|] == tables;
  }

  /** The catalog, the number of tables, and the tables in the order of their names. */
  method BuildCheckpointData(l: CatalogListing, storage: Storage) returns (bytes: Bytes)
    ensures bytes == Build(l, storage.View())
  {
    var tables := Saved(Store(storage.tables, storage.nextIds, storage.indexData));
    var payload := AppendTables(EncCatalog(l) + Little(|tables|, 8), tables);
    Assoc(EncCatalog(l), Little(|tables|, 8), EncAll(EncSaved, tables));
    bytes := Framed(255, payload);
  }

  function Behind(payload: Bytes, pos: nat): Bytes {
    if pos <= |payload| then payload[pos..] else []
  }

  lemma BehindBehind(payload: Bytes, pos: nat, n: nat)
    requires pos <= |payload|
    ensures Behind(payload, pos + n) == if n <= |payload| - pos then payload[pos..][n..] else []
  {
  }

  /** One saved table at `pos`: its name and where its rows start, and the rows and where they end. */
  method LoadOne(payload: Bytes, pos: nat) returns (name: Parsed<Str>, rows: Parsed<seq<Row>>, end: nat)
    requires pos < |payload|
    ensures name == DecStr(payload[pos..])
    ensures name.Some? && name.value.1 != [] ==> rows == DecSeq(DecRow, name.value.1)
    ensures name.Some? && name.value.1 != [] && rows.Some? ==>
              Behind(payload, end) == (var size := |EncSeq(EncRow, rows.value.0)|;
                                       if size <= |name.value.1| then name.value.1[size..] else [])
  {
    rows, end := None, pos;
    name := DecStr(payload[pos..]);
    if name == None {
      return;
    }
    end := pos + SizeStr(name.value.0);
    BehindBehind(payload, pos, SizeStr(name.value.0));
    if end >= |payload| {
      return;
    }
    rows := DecSeq(DecRow, payload[end..]);
    if rows == None {
      return;
    }
    BehindBehind(payload, end, |EncSeq(EncRow, rows.value.0)|);
    end := end + |EncSeq(EncRow, rows.value.0)|;
  }

  // What `LoadTables` does with the bytes at its front.
  lemma LoadStops(n: nat, b: Bytes, s: Store)
    requires n == 0 || b == [] || (DecStr(b).Some? && DecStr(b).value.1 == [])
    ensures LoadTables(n, b, s) == Some(s)
  {
  }

  lemma LoadFails(n: nat, b: Bytes, s: Store)
    requires n > 0 && b != []
    requires DecStr(b) == None || (DecStr(b).value.1 != [] && DecSeq(DecRow, DecStr(b).value.1) == None)
    ensures LoadTables(n, b, s) == None
  {
  }

  lemma LoadGoesOn(n: nat, b: Bytes, s: Store, name: Str, b1: Bytes, rows: seq<Row>, next: Bytes)
    requires n > 0 && b != [] && DecStr(b) == Some((name, b1)) && b1 != []
    requires DecSeq(DecRow, b1).Some? && DecSeq(DecRow, b1).value.0 == rows
    requires next == (var size := |EncSeq(EncRow, rows)|; if size <= |b1| then b1[size..] else [])
    ensures LoadTables(n, b, s) == LoadTables(n - 1, next, Inserted(s, name, rows))
  {
  }

  /**
    * Fills a new storage from the tables behind the catalog, advancing `pos` as `replay_checkpoint` does; `None` is a
    * decoding error.
    */
  method LoadStorage(payload: Bytes, start: nat, count: nat) returns (storage: Option<Storage>)
    ensures storage.Some? == LoadTables(count, Behind(payload, start), EmptyStore).Some?
    ensures storage.Some? ==> fresh(storage.value) && storage.value.View() == LoadTables(count, Behind(payload, start), EmptyStore).value
  {
    var pos: nat := start;
    var i: nat := 0;
    var store := new Storage();
    ghost var goal := LoadTables(count, Behind(payload, start), EmptyStore);
    ghost var ended := false;
    while i < count && pos < |payload|
      invariant 0 <= i <= count
      invariant fresh(store)
      invariant goal == LoadTables(count - i, Behind(payload, pos), store.View())
    {
      var name, rows, end := LoadOne(payload, pos);
      ghost var left, s := payload[pos..], store.View();
      if name == None {
        LoadFails(count - i, left, s);
        return None;
      }
      if name.value.1 == [] {
        LoadStops(count - i, left, s);
        ended := true;
        break;
      }
      if rows == None {
        LoadFails(count - i, left, s);
        return None;
      }
      LoadGoesOn(count - i, left, s, name.value.0, name.value.1, rows.value.0, Behind(payload, end));
      var _ := store.InsertRows(name.value.0, rows.value.0);
      pos, i := end, i + 1;
    }
    if !ended {
      LoadStops(count - i, Behind(payload, pos), store.View());
    }
    storage := Some(store);
  }

  datatype Failure = InvalidData | SliceOutOfRange

  method ReplayCounted(payload: Bytes, pos: nat) returns (storage: Option<Storage>)
    requires pos <= |payload|
    ensures storage.Some? == LoadCounted(payload[pos..]).Some?
    ensures storage.Some? ==> fresh(storage.value) && storage.value.View() == LoadCounted(payload[pos..]).value
  {
    var count := DecLittle(8, payload[pos..]);
    if count == None {
      return None;
    }
    BehindBehind(payload, pos, 8);
    storage := LoadStorage(payload, pos + 8, count.value.0);
  }

  method ReplayPayload(payload: Bytes) returns (r: Result<(Definitions, Storage), Failure>)
    ensures match LoadPayload(payload)
            case Restored(defs, s) => r.Ok? && r.value.0 == defs && fresh(r.value.1) && r.value.1.View() == s
            case _ => r == Err(InvalidData)
  {
    var catalog := DecCatalog(payload);
    if catalog == None {
      return Err(InvalidData);
    }
    var defs := ToDefinitions(catalog.value.0);
    var pos := SizeCatalog(defs);
    if pos >= |payload| {
      var empty := new Storage();
      return Ok((defs, empty));
    }
    var storage := ReplayCounted(payload, pos);
    r := if storage == None then Err(InvalidData) else Ok((defs, storage.value));
  }

  /**
    * `replay_checkpoint`: a catalog and a newly filled storage, or the error, or the panic on an entry that claims
    * fewer than 7 bytes.
    */
  method ReplayCheckpoint(data: Bytes) returns (r: Result<(Definitions, Storage), Failure>)
    ensures match Load(data)
            case Restored(defs, s) => r.Ok? && r.value.0 == defs && fresh(r.value.1) && r.value.1.View() == s
            case Invalid => r == Err(InvalidData)
            case Panicked => r == Err(SliceOutOfRange)
  {
    if |data| < HEADER_SIZE || data[..2] != MAGIC || data[6] != 255 {
      return Err(InvalidData);
    }
    var n := EntryLength(data);
    var end := if n < |data| then n else |data|;
    if end < HEADER_SIZE {
      return Err(SliceOutOfRange);
    }
    PayloadNeverPanics(data[HEADER_SIZE..end]);
    r := ReplayPayload(data[HEADER_SIZE..end]);
  }

  lemma PayloadNeverPanics(payload: Bytes)
    ensures LoadPayload(payload) != Restored.Panicked
  {
  }
}
