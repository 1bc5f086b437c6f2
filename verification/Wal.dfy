/**
  * The log as bytes: `serialize`, `deserialize`, `append` and `replay` of `src/engine/wal.rs`, and replay of a log cut
  * anywhere.
  */
module WalBytes {
  import opened Prelude
  import opened Types
  import opened Index
  import opened Storage
  import opened Catalog
  import opened WalEntries
  import opened Bincode
  import opened Where
  import opened Engine
  import opened Recovery

  const MAGIC: Bytes := [0x53, 0x44]
  const HEADER_SIZE: nat := 7

  function TypeOf(e: WalEntry): byte {
    match e
    case CreateTable(_, _) => 1
    case DropTable(_) => 2
    case InsertRows(_, _) => 3
    case TableSnapshot(_, _) => 4
    case CreateIndex(_, _) => 5
    case DropIndex(_, _, _) => 6
    case Checkpoint => 255
  }

  function Payload(e: WalEntry): Bytes {
    match e
    case CreateTable(name, columns) => EncBytes(name) + EncSeq(EncColumn, columns)
    case DropTable(name) => EncBytes(name)
    case InsertRows(name, rows) => EncBytes(name) + EncSeq(EncRow, rows)
    case TableSnapshot(name, rows) => EncBytes(name) + EncSeq(EncRow, rows)
    case CreateIndex(db, def) => EncBytes(db) + EncIndexDef(def)
    case DropIndex(db, index, table) => EncBytes(db) + (EncBytes(index) + EncBytes(table))
    case Checkpoint => []
  }

  /** Magic, the entry's length cut to 32 bits, its type, its payload. */
  function Framed(kind: byte, payload: Bytes): Bytes {
    MAGIC + (Little((HEADER_SIZE + |payload|) % 0x1_0000_0000, 4) + ([kind] + payload))
  }

  function Serialize(e: WalEntry): Bytes {
    Framed(TypeOf(e), Payload(e))
  }

  datatype Decoded = Entry(e: WalEntry) | UnknownType | Malformed

  function NamedRows(payload: Bytes): Option<(Str, seq<Row>)> {
    var (name, _) :- DecStr(payload);
    var (rows, _) :- DecSeq(DecRow, payload[SizeStr(name)..]);
    Some((name, rows))
  }

  function ThreeNames(payload: Bytes): Option<(Str, Str, Str)> {
    var (first, _) :- DecStr(payload);
    var (second, _) :- DecStr(payload[SizeStr(first)..]);
    var (third, _) :- DecStr(payload[SizeStr(first) + SizeStr(second)..]);
    Some((first, second, third))
  }

  function Orelse(e: Option<WalEntry>): Decoded {
    match e
    case Some(x) => Entry(x)
    case None => Malformed
  }

  /** Fields after the first are looked for where `serialized_size` says the earlier ones end. */
  function Deserialize(kind: byte, payload: Bytes): Decoded {
    if kind == 1 then Orelse(
                        var (name, _) :- DecStr(payload);
                        var (columns, _) :- DecSeq(DecColumn, payload[SizeStr(name)..]);
                        Some(CreateTable(name, columns)))
    else if kind == 2 then Orelse(
                             var (name, _) :- DecStr(payload);
                             Some(DropTable(name)))
    else if kind == 3 then Orelse(
                             var (name, rows) :- NamedRows(payload);
                             Some(InsertRows(name, rows)))
    else if kind == 4 then Orelse(
                             var (name, rows) :- NamedRows(payload);
                             Some(TableSnapshot(name, rows)))
    else if kind == 5 then Orelse(
                             var (db, _) :- DecStr(payload);
                             var (def, _) :- DecIndexDef(payload[SizeStr(db)..]);
                             Some(CreateIndex(db, def)))
    else if kind == 6 then Orelse(
                             var (db, index, table) :- ThreeNames(payload);
                             Some(DropIndex(db, index, table)))
    else if kind == 255 then Entry(Checkpoint)
    else UnknownType
  }

  // ---- One entry ----------------------------------------------------------------------------------

  predicate FitsEntry(e: WalEntry) {
    match e
    case CreateTable(name, columns) => FitsStr(name) && FitsColumns(columns)
    case DropTable(name) => FitsStr(name)
    case InsertRows(name, rows) => FitsStr(name) && FitsRows(rows)
    case TableSnapshot(name, rows) => FitsStr(name) && FitsRows(rows)
    case CreateIndex(db, def) => FitsStr(db) && FitsIndexDef(def)
    case DropIndex(db, index, table) => FitsStr(db) && FitsStr(index) && FitsStr(table)
    case Checkpoint => true
  }

  /** UTF-8 text, 64-bit ids, and fewer than 2^32 bytes in all. */
  predicate Storable(e: WalEntry) {
    FitsEntry(e) && HEADER_SIZE + |Payload(e)| < 0x1_0000_0000
  }

  lemma NameReads(name: Str, tail: Bytes)
    requires FitsStr(name)
    ensures DecStr(EncBytes(name) + tail) == Some((name, tail))
    ensures (EncBytes(name) + tail)[SizeStr(name)..] == tail
  {
    StrCodes(name);
    assert DecStr(EncBytes(name) + tail) == Some((name, tail));
  }

  lemma NameAndColumns(p: Bytes, tail: Bytes, name: Str, columns: seq<Column>)
    requires DecStr(p) == Some((name, tail)) && p[SizeStr(name)..] == tail
    requires DecSeq(DecColumn, tail) == Some((columns, []))
    ensures Deserialize(1, p) == Entry(CreateTable(name, columns))
  {
  }

  lemma CreateTableReads(name: Str, columns: seq<Column>)
    requires FitsStr(name) && FitsColumns(columns)
    ensures Deserialize(1, EncBytes(name) + EncSeq(EncColumn, columns)) == Entry(CreateTable(name, columns))
  {
    var none: Bytes := [];
    var tail := EncSeq(EncColumn, columns);
    NameReads(name, tail);
    ColumnsRead(columns, none);
    assert tail + none == tail;
    NameAndColumns(EncBytes(name) + tail, tail, name, columns);
  }

  lemma NameAndDefinition(p: Bytes, tail: Bytes, db: Str, def: IndexDef)
    requires DecStr(p) == Some((db, tail)) && p[SizeStr(db)..] == tail
    requires DecIndexDef(tail) == Some((def, []))
    ensures Deserialize(5, p) == Entry(CreateIndex(db, def))
  {
  }

  lemma CreateIndexReads(db: Str, def: IndexDef)
    requires FitsStr(db) && FitsIndexDef(def)
    ensures Deserialize(5, EncBytes(db) + EncIndexDef(def)) == Entry(CreateIndex(db, def))
  {
    var tail := EncIndexDef(def);
    NameReads(db, tail);
    IndexDefCodes(def);
    WholeInput(EncIndexDef, DecIndexDef, def);
    NameAndDefinition(EncBytes(db) + tail, tail, db, def);
  }

  lemma WholeInput<T(!new)>(enc: T -> Bytes, dec: Bytes -> Parsed<T>, x: T)
    requires Codes(enc, dec, x)
    ensures dec(enc(x)) == Some((x, []))
  {
    var none: Bytes := [];
    assert enc(x) + none == enc(x);
    assert dec(enc(x) + none) == Some((x, none));
  }

  lemma ThreeNamesRead(p: Bytes, tail: Bytes, last: Bytes, first: Str, second: Str, third: Str)
    requires DecStr(p) == Some((first, tail)) && p[SizeStr(first)..] == tail
    requires DecStr(tail) == Some((second, last)) && tail[SizeStr(second)..] == last
    requires DecStr(last) == Some((third, []))
    ensures ThreeNames(p) == Some((first, second, third))
  {
    assert p[SizeStr(first) + SizeStr(second)..] == tail[SizeStr(second)..];
  }

  lemma NameTripleReads(first: Str, second: Str, third: Str)
    requires FitsStr(first) && FitsStr(second) && FitsStr(third)
    ensures ThreeNames(EncBytes(first) + (EncBytes(second) + EncBytes(third))) == Some((first, second, third))
  {
    var none: Bytes := [];
    var last := EncBytes(third);
    var tail := EncBytes(second) + last;
    NameReads(first, tail);
    NameReads(second, last);
    NameReads(third, none);
    assert last + none == last;
    ThreeNamesRead(EncBytes(first) + tail, tail, last, first, second, third);
  }

  lemma DropIndexReads(db: Str, index: Str, table: Str)
    requires FitsStr(db) && FitsStr(index) && FitsStr(table)
    ensures Deserialize(6, EncBytes(db) + (EncBytes(index) + EncBytes(table))) == Entry(DropIndex(db, index, table))
  {
    NameTripleReads(db, index, table);
    ThreeNamesMake(EncBytes(db) + (EncBytes(index) + EncBytes(table)), db, index, table);
  }

  lemma ThreeNamesMake(payload: Bytes, db: Str, index: Str, table: Str)
    requires ThreeNames(payload) == Some((db, index, table))
    ensures Deserialize(6, payload) == Entry(DropIndex(db, index, table))
  {
  }

  lemma DropTableReads(name: Str)
    requires FitsStr(name)
    ensures Deserialize(2, EncBytes(name)) == Entry(DropTable(name))
  {
    NameReads(name, []);
    assert EncBytes(name) + [] == EncBytes(name);
  }

  lemma RowEntriesRead(name: Str, rows: seq<Row>)
    requires FitsStr(name) && FitsRows(rows)
    ensures Deserialize(3, EncBytes(name) + EncSeq(EncRow, rows)) == Entry(InsertRows(name, rows))
    ensures Deserialize(4, EncBytes(name) + EncSeq(EncRow, rows)) == Entry(TableSnapshot(name, rows))
  {
    NamedRowsRead(name, rows);
  }

  /** Decoding an entry's own type and payload gives the entry back. */
  lemma DeserializeReads(e: WalEntry)
    requires FitsEntry(e)
    ensures Deserialize(TypeOf(e), Payload(e)) == Entry(e)
  {
    match e {
      case CreateTable(name, columns) => CreateTableReads(name, columns);
      case DropTable(name) => DropTableReads(name);
      case InsertRows(name, rows) => RowEntriesRead(name, rows);
      case TableSnapshot(name, rows) => RowEntriesRead(name, rows);
      case CreateIndex(db, def) => CreateIndexReads(db, def);
      case DropIndex(db, index, table) => DropIndexReads(db, index, table);
      case Checkpoint =>
    }
  }

  lemma NamedRowsRead(name: Str, rows: seq<Row>)
    requires FitsStr(name) && FitsRows(rows)
    ensures NamedRows(EncBytes(name) + EncSeq(EncRow, rows)) == Some((name, rows))
  {
    var none: Bytes := [];
    NameReads(name, EncSeq(EncRow, rows));
    RowsRead(rows, none);
    assert EncSeq(EncRow, rows) + none == EncSeq(EncRow, rows);
  }

  // ---- Replay -----------------------------------------------------------------------------------------

  /** How replay ends; `Panicked` is the slice `buf[pos + 7..end]` of an entry that claims fewer than 7 bytes. */
  datatype Replayed = Replayed(image: Image, count: nat) | Panicked

  function EntryLength(b: Bytes): nat
    requires |b| >= HEADER_SIZE
  {
    FromLittle(b[2..6])
  }

  /** Replay of the bytes that are left. */
  function Replay(b: Bytes, image: Image, count: nat): Replayed
    decreases |b|
  {
    if |b| < HEADER_SIZE || b[..2] != MAGIC then Replayed(image, count)
    else
      var n := EntryLength(b);
      if n > |b| then Replayed(image, count)
      else if n < HEADER_SIZE then Panicked
      else
        match Deserialize(b[6], b[HEADER_SIZE..n])
        case Entry(e) => Replay(b[n..], Apply(image, e), count + if Succeeds(image, e) then 1 else 0)
        case UnknownType => Replay(b[n..], image, count + 1)
        case Malformed => Replayed(image, count)
  }

  /** The file after these entries were appended. */
  function SerializeAll(entries: seq<WalEntry>): Bytes {
    EncAll(Serialize, entries)
  }

  lemma HeaderSlices(magic: Bytes, length: Bytes, kind: byte, payload: Bytes, rest: Bytes)
    requires |magic| == 2 && |length| == 4
    ensures var b := (magic + (length + ([kind] + payload))) + rest;
            && b[..2] == magic && b[2..6] == length && b[6] == kind
            && b[7..7 + |payload|] == payload && b[7 + |payload|..] == rest
  {
    var b := (magic + (length + ([kind] + payload))) + rest;
    assert b[7..7 + |payload|] == payload;
    assert b[7 + |payload|..] == rest;
  }

  lemma LengthReads(n: nat, cut: nat, w: nat)
    requires n == cut < Pow256(w)
    ensures FromLittle(Little(cut, w)) == n
  {
    LittleRoundTrip(n, w);
  }

  lemma HeaderReads(kind: byte, payload: Bytes, rest: Bytes)
    requires HEADER_SIZE + |payload| < 0x1_0000_0000
    ensures var b := Framed(kind, payload) + rest;
            && |Framed(kind, payload)| == HEADER_SIZE + |payload|
            && b[..2] == MAGIC && b[6] == kind
            && FromLittle(b[2..6]) == HEADER_SIZE + |payload|
            && b[HEADER_SIZE..HEADER_SIZE + |payload|] == payload
            && b[HEADER_SIZE + |payload|..] == rest
  {
    var n := HEADER_SIZE + |payload|;
    HeaderSlices(MAGIC, Little(n % 0x1_0000_0000, 4), kind, payload, rest);
    Widths();
    LengthReads(n, n % 0x1_0000_0000, 4);
  }

  lemma ReplayOne(e: WalEntry, rest: Bytes, image: Image, count: nat)
    requires Storable(e)
    ensures Replay(Serialize(e) + rest, image, count) == Replay(rest, Apply(image, e), count + if Succeeds(image, e) then 1 else 0)
  {
    HeaderReads(TypeOf(e), Payload(e), rest);
    DeserializeReads(e);
  }

  /** What is left of an entry cut short is ignored. */
  lemma ReplayTorn(e: WalEntry, n: nat, image: Image, count: nat)
    requires Storable(e) && n < |Serialize(e)|
    ensures Replay(Serialize(e)[..n], image, count) == Replayed(image, count)
  {
    var none: Bytes := [];
    HeaderReads(TypeOf(e), Payload(e), none);
    assert Serialize(e) + none == Serialize(e);
    var b := Serialize(e)[..n];
    if n >= HEADER_SIZE {
      assert b[2..6] == Serialize(e)[2..6];
    }
  }

  lemma {:induction false} ApplyAllFront(image: Image, entries: seq<WalEntry>)
    requires entries != []
    ensures ApplyAll(image, entries) == ApplyAll(Apply(image, entries[0]), entries[1..])
  {
    var init, last := entries[..|entries| - 1], entries[|entries| - 1];
    if |entries| > 1 {
      ApplyAllFront(image, init);
      assert entries[1..][..|entries| - 2] == init[1..];
    }
  }

  /** The number of entries that lie whole within the first `n` bytes. */
  function WholeEntries<T>(enc: T -> Bytes, entries: seq<T>, n: nat): (k: nat)
    ensures k <= |entries|
  {
    if entries == [] || n < |enc(entries[0])| then 0
    else 1 + WholeEntries(enc, entries[1..], n - |enc(entries[0])|)
  }

  lemma {:induction false} WholeEntriesFit<T>(enc: T -> Bytes, entries: seq<T>, n: nat)
    ensures var k := WholeEntries(enc, entries, n);
            && |EncAll(enc, entries[..k])| <= n
            && (k < |entries| ==> n < |EncAll(enc, entries[..k])| + |enc(entries[k])|)
  {
    if entries != [] && n >= |enc(entries[0])| {
      var k := WholeEntries(enc, entries, n);
      WholeEntriesFit(enc, entries[1..], n - |enc(entries[0])|);
      assert entries[..k][1..] == entries[1..][..k - 1];
    }
  }

  lemma {:induction false} WholeLog<T>(enc: T -> Bytes, entries: seq<T>)
    ensures WholeEntries(enc, entries, |EncAll(enc, entries)|) == |entries|
  {
    if entries != [] {
      WholeLog(enc, entries[1..]);
    }
  }

  type Replayer = (Bytes, Image, nat) -> Replayed

  /** An entry at the front is applied and replay goes on behind it; a torn one is ignored. */
  ghost predicate ReplaysEntry(enc: WalEntry -> Bytes, replay: Replayer, e: WalEntry) {
    && (forall rest: Bytes, image, count: nat ::
          replay(enc(e) + rest, image, count) == replay(rest, Apply(image, e), count + if Succeeds(image, e) then 1 else 0))
    && (forall n: nat, image, count: nat :: n < |enc(e)| ==> replay(enc(e)[..n], image, count) == Replayed(image, count))
  }

  lemma {:induction false} CutReplaysWholeEntries(enc: WalEntry -> Bytes, replay: Replayer, entries: seq<WalEntry>,
      n: nat, image: Image, count: nat)
    requires forall e :: e in entries ==> ReplaysEntry(enc, replay, e)
    requires forall i, c: nat :: replay([], i, c) == Replayed(i, c)
    requires n <= |EncAll(enc, entries)|
    ensures var r := replay(EncAll(enc, entries)[..n], image, count);
            r.Replayed? && r.image == ApplyAll(image, entries[..WholeEntries(enc, entries, n)])
  {
    if entries == [] {
      assert EncAll(enc, entries)[..n] == [];
    } else {
      var e, rest, k := entries[0], EncAll(enc, entries[1..]), WholeEntries(enc, entries, n);
      var first := enc(e);
      assert ReplaysEntry(enc, replay, e);
      if n < |first| {
        assert EncAll(enc, entries)[..n] == first[..n];
        assert replay(first[..n], image, count) == Replayed(image, count);
        assert entries[..k] == [];
      } else {
        var m := n - |first|;
        assert EncAll(enc, entries)[..n] == first + rest[..m];
        CutReplaysWholeEntries(enc, replay, entries[1..], m, Apply(image, e), count + if Succeeds(image, e) then 1 else 0);
        assert entries[..k][1..] == entries[1..][..k - 1];
        ApplyAllFront(image, entries[..k]);
      }
    }
  }

  lemma EntryReplays(e: WalEntry)
    requires Storable(e)
    ensures ReplaysEntry(Serialize, Replay, e)
  {
    forall rest: Bytes, i: Image, c: nat
      ensures Replay(Serialize(e) + rest, i, c) == Replay(rest, Apply(i, e), c + if Succeeds(i, e) then 1 else 0)
    {
      ReplayOne(e, rest, i, c);
    }
    forall m: nat, i: Image, c: nat | m < |Serialize(e)| ensures Replay(Serialize(e)[..m], i, c) == Replayed(i, c) {
      ReplayTorn(e, m, i, c);
    }
  }

  /** A log cut at any byte replays exactly its whole entries: no panic, no error, nothing of the torn one. */
  lemma CutLogReplaysWholeEntries(entries: seq<WalEntry>, n: nat, image: Image, count: nat)
    requires forall e :: e in entries ==> Storable(e)
    requires n <= |SerializeAll(entries)|
    ensures var r := Replay(SerializeAll(entries)[..n], image, count);
            r.Replayed? && r.image == ApplyAll(image, entries[..WholeEntries(Serialize, entries, n)])
  {
    forall e | e in entries ensures ReplaysEntry(Serialize, Replay, e) {
      EntryReplays(e);
    }
    CutReplaysWholeEntries(Serialize, Replay, entries, n, image, count);
  }

  /** Decoding a whole log. */
  function DecodeAll(b: Bytes): Option<seq<WalEntry>>
    decreases |b|
  {
    if b == [] then Some([])
    else if |b| < HEADER_SIZE || b[..2] != MAGIC || !(HEADER_SIZE <= EntryLength(b) <= |b|) then None
    else
      var n := EntryLength(b);
      match Deserialize(b[6], b[HEADER_SIZE..n])
      case Entry(e) =>
        var rest :- DecodeAll(b[n..]);
        Some([e] + rest)
      case _ => None
  }

  lemma FirstEntryReads(e: WalEntry, rest: Bytes)
    requires Storable(e)
    ensures DecodeAll(Serialize(e) + rest) == match DecodeAll(rest) case None => None case Some(es) => Some([e] + es)
  {
    HeaderReads(TypeOf(e), Payload(e), rest);
    DeserializeReads(e);
  }

  function Prepended<T>(x: T, xs: Option<seq<T>>): Option<seq<T>> {
    match xs
    case None => None
    case Some(rest) => Some([x] + rest)
  }

  /** A reader that takes one item off the front of any bytes reads all items back. */
  lemma {:induction false} AllRead<T>(enc: T -> Bytes, dec: Bytes -> Option<seq<T>>, xs: seq<T>)
    requires dec([]) == Some([])
    requires forall x, rest :: x in xs ==> dec(enc(x) + rest) == Prepended(x, dec(rest))
    ensures dec(EncAll(enc, xs)) == Some(xs)
  {
    if xs != [] {
      AllRead(enc, dec, xs[1..]);
      assert xs[0] in xs;
      assert [xs[0]] + xs[1..] == xs;
    }
  }

  /** The entries come back from their concatenated serialisations. */
  lemma LogRoundTrip(entries: seq<WalEntry>)
    requires forall e :: e in entries ==> Storable(e)
    ensures DecodeAll(SerializeAll(entries)) == Some(entries)
  {
    forall e: WalEntry, rest: Bytes | e in entries ensures DecodeAll(Serialize(e) + rest) == Prepended(e, DecodeAll(rest)) {
      FirstEntryReads(e, rest);
    }
    AllRead(Serialize, DecodeAll, entries);
  }

  /**
    * Crash consistency: the log of a run, cut at any byte and replayed into a fresh state, gives the databases, rows,
    * ids and counters that the run had when it had logged exactly the entries that lie whole in what is left.
    */
  lemma CrashConsistency(db: Str, statements: seq<Statement>, platform: Platform, n: nat) returns (j: nat)
    requires Lower(db) == SRRDB && NoPanic(db, statements, platform)
    requires forall e :: e in Run(db, statements, platform).log ==> Storable(e)
    requires n <= |SerializeAll(Run(db, statements, platform).log)|
    ensures j <= |statements|
    ensures var r := Replay(SerializeAll(Run(db, statements, platform).log)[..n], FreshImage, 0);
            r.Replayed? && SameImage(r.image, Run(db, statements[..j], platform))
    ensures var log := Run(db, statements, platform).log;
            Run(db, statements[..j], platform).log == log[..WholeEntries(Serialize, log, n)]
    ensures n == |SerializeAll(Run(db, statements, platform).log)| ==> Run(db, statements[..j], platform).log == Run(db, statements, platform).log
  {
    var log := Run(db, statements, platform).log;
    CutLogReplaysWholeEntries(log, n, FreshImage, 0);
    j := LogPrefixIsRunPrefix(db, statements, platform, WholeEntries(Serialize, log, n));
    if n == |SerializeAll(log)| {
      WholeLog(Serialize, log);
      assert log[..|log|] == log;
    }
  }

  // ---- The file ---------------------------------------------------------------------------------------------

  class Wal {
    var bytes: Bytes

    constructor ()
      ensures bytes == []
    {
      bytes := [];
    }

    method Append(e: WalEntry)
      modifies this
      ensures bytes == old(bytes) + Serialize(e)
    {
      var payload := Payload(e);
      var buf := MAGIC;
      buf := buf + Little((HEADER_SIZE + |payload|) % 0x1_0000_0000, 4);
      buf := buf + [TypeOf(e)];
      buf := buf + payload;
      var length, kind := Little((HEADER_SIZE + |payload|) % 0x1_0000_0000, 4), [TypeOf(e)];
      Assoc(MAGIC + length, kind, payload);
      Assoc(MAGIC, length, kind + payload);
      bytes := bytes + buf;
    }

    /** Replays the file into the given catalog and storage, entry by entry; `None` is the panic. */
    method ReplayInto(catalog: Catalog, storage: Storage) returns (count: Option<nat>)
      modifies catalog, storage
      ensures match old(Replay(bytes, Image(catalog.View(), storage.View()), 0))
              case Replayed(image, n) => count == Some(n) && Image(catalog.View(), storage.View()) == image
              case Panicked => count == None
    {
      var pos, n := 0, 0;
      ghost var start := Image(catalog.View(), storage.View());
      while pos + HEADER_SIZE <= |bytes|
        invariant 0 <= pos <= |bytes|
        invariant Replay(bytes, start, 0) == Replay(bytes[pos..], Image(catalog.View(), storage.View()), n)
      {
        ghost var left := bytes[pos..];
        assert left[..2] == bytes[pos..pos + 2] && left[6] == bytes[pos + 6];
        if bytes[pos..pos + 2] != MAGIC {
          break;
        }
        var length := FromLittle(bytes[pos + 2..pos + 6]);
        assert left[2..6] == bytes[pos + 2..pos + 6];
        var end := pos + length;
        if end > |bytes| {
          break;
        }
        if length < HEADER_SIZE {
          return None;
        }
        assert left[HEADER_SIZE..length] == bytes[pos + HEADER_SIZE..end];
        assert left[length..] == bytes[end..];
        match Deserialize(bytes[pos + 6], bytes[pos + HEADER_SIZE..end]) {
          case Entry(e) =>
            var ok := ApplyEntry(catalog, storage, e);
            if ok {
              n := n + 1;
            }
          case UnknownType =>
            n := n + 1;
          case Malformed =>
            return Some(n);
        }
        pos := end;
      }
      count := Some(n);
    }
  }
}
