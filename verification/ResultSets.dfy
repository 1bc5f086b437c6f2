/**
  * A result set from the server's rows to the client's cells: `src/protocol/resultset.rs`, `handle_query` and
  * `execute_query`.
  */
module ResultSets {
  import opened Prelude
  import opened Types
  import opened Bincode
  import opened Wire

  // ---- The server's payloads ---------------------------------------------------------------------

  const EOF: Bytes := [0xFE, 2, 0, 0, 0]

  const DEF: Str := [100, 101, 102]

  function CountPayload(count: nat): Bytes {
    LenInt(count % U64)
  }

  /** What follows the six strings of a column definition. */
  function FixedFields(c: Column): Bytes {
    [0x0C] + (Little(c.charset, 2) + (Little(c.columnLength, 4) + ([WireCode(c.colType)] + (Little(c.flags, 2) + ([c.decimals] + [0, 0])))))
  }

  function ColumnPayload(c: Column): Bytes {
    LenStr(DEF) + (LenStr([]) + (LenStr(c.table) + (LenStr(c.table) + (LenStr(c.name) + (LenStr(c.name) + FixedFields(c))))))
  }

  /** The bytes a cell is sent as; `None` is NULL. */
  function CellBytes(v: Value, platform: Platform): Option<Bytes> {
    match v
    case Null => None
    case Bytes(b) => Some(b)
    case Text(t) => Some(t)
    case _ => Some((platform.render)(v))
  }

  function EncCell(c: Option<Bytes>): (b: Bytes)
    ensures b != []
  {
    match c
    case None => [0xFB]
    case Some(s) => LenStr(s)
  }

  function CellsOf(values: seq<Value>, platform: Platform): (cells: seq<Option<Bytes>>)
    ensures |cells| == |values|
  {
    if values == [] then [] else [CellBytes(values[0], platform)] + CellsOf(values[1..], platform)
  }

  function RowPayload(cells: seq<Option<Bytes>>): Bytes {
    EncAll(EncCell, cells)
  }

  function ColumnPayloads(columns: seq<Column>): (r: seq<Bytes>)
    ensures |r| == |columns|
  {
    if columns == [] then [] else [ColumnPayload(columns[0])] + ColumnPayloads(columns[1..])
  }

  function CellRows(rows: seq<seq<Value>>, platform: Platform): (r: seq<seq<Option<Bytes>>>)
    ensures |r| == |rows|
    ensures forall i :: 0 <= i < |rows| ==> r[i] == CellsOf(rows[i], platform)
  {
    seq(|rows|, i requires 0 <= i < |rows| => CellsOf(rows[i], platform))
  }

  function RowPayloads(rows: seq<seq<Option<Bytes>>>): (r: seq<Bytes>)
    ensures |r| == |rows|
    ensures forall i :: 0 <= i < |r| ==> r[i] == RowPayload(rows[i])
  {
    if rows == [] then [] else [RowPayload(rows[0])] + RowPayloads(rows[1..])
  }

  /**
    * Count, definitions, EOF, rows, EOF: the single packets numbered `s0`, `s1`, `s2`, the others from `d` and `r` on.
    */
  function Answer(s0: byte, count: Bytes, d: nat, definitions: seq<Bytes>, s1: byte, r: nat, rows: seq<Bytes>,
      s2: byte): Bytes {
    Framed(s0, count) + (Frames(d, definitions) + (Framed(s1, EOF) + (Frames(r, rows) + Framed(s2, EOF))))
  }

  function OkPayload(affected: u64, lastInsertId: u64, status: u16): Bytes {
    [0x00] + (LenInt(affected) + (LenInt(lastInsertId) + (Little(status, 2) + Little(0, 2))))
  }

  /** "#HY000" */
  const STATE: Str := [35, 72, 89, 48, 48, 48]

  function ErrPayload(code: u16, message: Str): Bytes {
    [0xFF] + (Little(code, 2) + (STATE + message))
  }

  // ---- The client's reading -------------------------------------------------------------------------

  /** `parse_column_def`: four strings skipped, the fifth is the name. */
  function ParseColumn(b: Bytes): Option<Bytes> {
    var (_, n1) :- ParseStr(b);
    var (_, n2) :- ParseStr(b[n1..]);
    var (_, n3) :- ParseStr(b[n1..][n2..]);
    var (_, n4) :- ParseStr(b[n1..][n2..][n3..]);
    var (name, _) :- ParseStr(b[n1..][n2..][n3..][n4..]);
    Some(name)
  }

  function ParseCells(b: Bytes): Option<seq<Option<Bytes>>>
    decreases |b|
  {
    if b == [] then Some([])
    else if b[0] == 0xFB then
      var rest :- ParseCells(b[1..]);
      Some([None] + rest)
    else
      var (s, n) :- ParseStr(b);
      var rest :- ParseCells(b[n..]);
      Some([Some(s)] + rest)
  }

  /** `n` packets, each parsed. */
  function ReadNames(parse: Bytes -> Option<Bytes>, n: nat, b: Bytes): Parsed<seq<Bytes>> {
    if n == 0 then Some(([], b))
    else
      var (p, b1) :- DecPacket(b);
      var name :- parse(p.payload);
      var (names, b2) :- ReadNames(parse, n - 1, b1);
      Some(([name] + names, b2))
  }

  predicate EndsRows(payload: Bytes) {
    payload == [] || payload[0] == 0xFE
  }

  /** Row packets up to the first that is empty or begins with 0xFE. */
  function ReadRows(b: Bytes): Parsed<seq<seq<Option<Bytes>>>>
    decreases |b|
  {
    var (p, b1) :- DecPacket(b);
    if EndsRows(p.payload) then Some(([], b1))
    else
      var cells :- ParseCells(p.payload);
      var (rows, b2) :- ReadRows(b1);
      Some(([cells] + rows, b2))
  }

  datatype QueryResult =
    | OkResult(affected: u64, lastInsertId: u64)
    | ErrorResult(code: nat, message: Bytes)
    | ResultSet(names: seq<Bytes>, rows: seq<seq<Option<Bytes>>>)

  function ReadResultSet(parse: Bytes -> Option<Bytes>, count: nat, b: Bytes): Parsed<QueryResult> {
    var (names, b1) :- ReadNames(parse, count, b);
    var (_, b2) :- DecPacket(b1);
    var (rows, b3) :- ReadRows(b2);
    Some((ResultSet(names, rows), b3))
  }

  /**
    * What `execute_query` makes of the bytes that arrive; `None` is an early end of the stream or an index out of
    * range.
    */
  function ReadAnswer(b: Bytes): Parsed<QueryResult> {
    var (p, b1) :- DecPacket(b);
    if p.payload == [] then None
    else if p.payload[0] == 0x00 then
      var (affected, n) :- ParseInt(p.payload[1..]);
      if 1 + n > |p.payload| then None
      else
        var (last, _) :- ParseInt(p.payload[1 + n..]);
        Some((OkResult(affected, last), b1))
    else if p.payload[0] == 0xFF then
      if |p.payload| < 3 then None else Some((ErrorResult(FromLittle(p.payload[1..3]), p.payload[3..]), b1))
    else if p.payload[0] == 0xFE then Some((OkResult(0, 0), b1))
    else
      var (count, _) :- ParseInt(p.payload);
      ReadResultSet(ParseColumn, count, b1)
  }

  // ---- One packet at a time ------------------------------------------------------------------------------

  lemma FiveStrings(b: Bytes, b1: Bytes, b2: Bytes, b3: Bytes, b4: Bytes, n1: nat, n2: nat, n3: nat, n4: nat,
      n5: nat, name: Bytes)
    requires ParseStr(b).Some? && ParseStr(b).value.1 == n1 && b[n1..] == b1
    requires ParseStr(b1).Some? && ParseStr(b1).value.1 == n2 && b1[n2..] == b2
    requires ParseStr(b2).Some? && ParseStr(b2).value.1 == n3 && b2[n3..] == b3
    requires ParseStr(b3).Some? && ParseStr(b3).value.1 == n4 && b3[n4..] == b4
    requires ParseStr(b4) == Some((name, n5))
    ensures ParseColumn(b) == Some(name)
  {
  }

  lemma ColumnReads(c: Column)
    requires |c.name| < U64 && |c.table| < U64
    ensures ParseColumn(ColumnPayload(c)) == Some(c.name)
  {
    var tail := FixedFields(c);
    var b5 := LenStr(c.name) + tail;
    var b4 := LenStr(c.name) + b5;
    var b3 := LenStr(c.table) + b4;
    var b2 := LenStr(c.table) + b3;
    var b1 := LenStr([]) + b2;
    LenStrReads(DEF, b1);
    LenStrReads([], b2);
    LenStrReads(c.table, b3);
    LenStrReads(c.table, b4);
    LenStrReads(c.name, b5);
    FiveStrings(ColumnPayload(c), b1, b2, b3, b4, |LenStr(DEF)|, |LenStr([])|, |LenStr(c.table)|, |LenStr(c.table)|, |LenStr(c.name)|, c.name);
  }

  lemma Between<T>(a: seq<T>, x: seq<T>, y: seq<T>)
    ensures (a + (x + y))[|a|..|a| + |x|] == x
    ensures (a + (x + y))[|a| + |x|..] == y
  {
    assert (a + (x + y))[|a|..] == x + y;
  }

  /** The length byte 12 counts the bytes behind it, which hold the fields at fixed places. */
  lemma FixedFieldsRead(c: Column)
    ensures var b := FixedFields(c);
            && |b| == 1 + b[0] as nat
            && FromLittle(b[1..3]) == c.charset && FromLittle(b[3..7]) == c.columnLength
            && b[7] == WireCode(c.colType) && FromLittle(b[8..10]) == c.flags && b[10] == c.decimals && b[11..] == [0, 0]
  {
    Widths();
    LittleRoundTrip(c.charset, 2);
    LittleRoundTrip(c.columnLength, 4);
    LittleRoundTrip(c.flags, 2);
    var length: Bytes, charset, width, kind: Bytes, flags, tail: Bytes :=
      [0x0C], Little(c.charset, 2), Little(c.columnLength, 4), [WireCode(c.colType)], Little(c.flags, 2), [c.decimals] + [0, 0];
    Assoc(length, charset, width + (kind + (flags + tail)));
    Assoc(length + charset, width, kind + (flags + tail));
    Assoc(length + charset + width, kind, flags + tail);
    Between(length, charset, width + (kind + (flags + tail)));
    Between(length + charset, width, kind + (flags + tail));
    Between(length + charset + width, kind, flags + tail);
    Between(length + charset + width + kind, flags, tail);
  }

  /** A row's cells are read back, NULL apart from the empty string. */
  lemma {:induction false} CellsRead(cells: seq<Option<Bytes>>)
    requires forall c :: c in cells && c.Some? ==> |c.value| < U64
    ensures ParseCells(RowPayload(cells)) == Some(cells)
  {
    if cells != [] {
      var first, rest := cells[0], RowPayload(cells[1..]);
      assert first in cells;
      CellsRead(cells[1..]);
      if first.Some? {
        LenStrReads(first.value, rest);
      } else {
        assert (EncCell(first) + rest)[1..] == rest;
      }
      assert [first] + cells[1..] == cells;
    }
  }

  lemma CellFits(cells: seq<Option<Bytes>>, i: nat)
    requires i < |cells| && cells[i].Some?
    ensures |cells[i].value| <= |RowPayload(cells)|
  {
    if i > 0 {
      CellFits(cells[1..], i - 1);
    }
  }

  lemma ColumnFits(c: Column)
    requires |ColumnPayload(c)| < FRAME
    ensures |c.name| < FRAME && |c.table| < FRAME
  {
    assert |LenStr(c.name)| > |c.name| && |LenStr(c.table)| > |c.table|;
  }

  /** A row packet looks like EOF to the client exactly when it has no cell or its first cell has 2^24 bytes or more. */
  lemma RowTakenForEof(cells: seq<Option<Bytes>>)
    requires cells != [] && cells[0].Some? ==> |cells[0].value| < U64
    ensures EndsRows(RowPayload(cells)) <==> cells == [] || (cells[0].Some? && |cells[0].value| >= FRAME)
  {
    if cells != [] {
      assert RowPayload(cells)[0] == EncCell(cells[0])[0];
    }
  }

  lemma FittingRow(cells: seq<Option<Bytes>>)
    requires |RowPayload(cells)| < FRAME
    ensures ParseCells(RowPayload(cells)) == Some(cells)
    ensures EndsRows(RowPayload(cells)) <==> cells == []
  {
    forall c | c in cells && c.Some? ensures |c.value| < FRAME {
      var i :| 0 <= i < |cells| && cells[i] == c;
      CellFits(cells, i);
    }
    CellsRead(cells);
    RowTakenForEof(cells);
  }

  // ---- The stream ------------------------------------------------------------------------------------------

  function NamesOf(columns: seq<Column>): (names: seq<Bytes>)
    ensures |names| == |columns|
    ensures forall i :: 0 <= i < |names| ==> names[i] == columns[i].name
  {
    if columns == [] then [] else [columns[0].name] + NamesOf(columns[1..])
  }

  lemma FrontPacket(first: nat, payload: Bytes, others: Bytes, rest: Bytes)
    requires |payload| < FRAME
    ensures DecPacket((Framed(first % 256, payload) + others) + rest) == Some((Packet(first % 256, payload), others + rest))
  {
    Assoc(Framed(first % 256, payload), others, rest);
    PacketReads(first % 256, payload, others + rest);
  }

  /** Packets that `parse` takes to these names. */
  ghost predicate ParseTo(parse: Bytes -> Option<Bytes>, payloads: seq<Bytes>, names: seq<Bytes>) {
    && |payloads| == |names|
    && forall i :: 0 <= i < |payloads| ==> |payloads[i]| < FRAME && parse(payloads[i]) == Some(names[i])
  }

  lemma {:induction false} NamesRead(parse: Bytes -> Option<Bytes>, first: nat, payloads: seq<Bytes>,
      names: seq<Bytes>, rest: Bytes)
    requires |payloads| == |names|
    requires ParseTo(parse, payloads, names)
    ensures ReadNames(parse, |names|, Frames(first, payloads) + rest) == Some((names, rest))
    decreases |names|
  {
    if names == [] {
      assert Frames(first, []) + rest == rest;
    } else {
      FrontPacket(first, payloads[0], Frames(first + 1, payloads[1..]), rest);
      NamesRead(parse, first + 1, payloads[1..], names[1..], rest);
      assert [names[0]] + names[1..] == names;
    }
  }

  lemma NextRow(first: nat, rows: seq<seq<Option<Bytes>>>, end: Bytes)
    requires rows != [] && |RowPayload(rows[0])| < FRAME
    ensures DecPacket(Frames(first, RowPayloads(rows)) + end)
         == Some((Packet(first % 256, RowPayload(rows[0])), Frames(first + 1, RowPayloads(rows[1..])) + end))
  {
    FrontPacket(first, RowPayload(rows[0]), Frames(first + 1, RowPayloads(rows[1..])), end);
    assert RowPayloads(rows)[1..] == RowPayloads(rows[1..]);
  }

  /** All rows are read when none is empty; otherwise reading stops short of them. */
  lemma {:induction false} RowsRead(first: nat, rows: seq<seq<Option<Bytes>>>, seqId: byte, rest: Bytes)
    requires RowsFit(rows)
    ensures var read := ReadRows(Frames(first, RowPayloads(rows)) + (Framed(seqId, EOF) + rest));
            && read.Some?
            && ([] !in rows ==> read == Some((rows, rest)))
            && ([] in rows ==> |read.value.0| < |rows|)
    decreases |rows|
  {
    var end := Framed(seqId, EOF) + rest;
    if rows == [] {
      PacketReads(seqId, EOF, rest);
      assert Frames(first, []) + end == end;
    } else {
      assert rows[0] in rows;
      FittingRow(rows[0]);
      NextRow(first, rows, end);
      RowsRead(first + 1, rows[1..], seqId, rest);
      assert rows == [rows[0]] + rows[1..];
    }
  }

  lemma CountRead(count: nat)
    requires 1 <= count < FRAME
    ensures |CountPayload(count)| < FRAME && ParseInt(CountPayload(count)).Some? && ParseInt(CountPayload(count)).value.0 == count
    ensures CountPayload(count)[0] != 0 && CountPayload(count)[0] != 0xFE && CountPayload(count)[0] != 0xFF
  {
    var none: Bytes := [];
    LenIntReads(count, none);
    assert LenInt(count) + none == LenInt(count);
  }

  lemma HeadReads(seqId: byte, count: nat, body: Bytes)
    requires 1 <= count < FRAME
    ensures ReadAnswer(Framed(seqId, CountPayload(count)) + body) == ReadResultSet(ParseColumn, count, body)
  {
    CountRead(count);
    PacketReads(seqId, CountPayload(count), body);
  }

  lemma BodyReads(parse: Bytes -> Option<Bytes>, first: nat, definitions: seq<Bytes>, names: seq<Bytes>, seqId: byte,
      closing: Bytes)
    requires |definitions| == |names| && ReadRows(closing).Some?
    requires ParseTo(parse, definitions, names)
    ensures ReadResultSet(parse, |names|, Frames(first, definitions) + (Framed(seqId, EOF) + closing))
         == Some((ResultSet(names, ReadRows(closing).value.0), ReadRows(closing).value.1))
  {
    NamesRead(parse, first, definitions, names, Framed(seqId, EOF) + closing);
    PacketReads(seqId, EOF, closing);
  }

  lemma Regroup(a: Bytes, b: Bytes, c: Bytes, d: Bytes, e: Bytes, rest: Bytes)
    ensures (a + (b + (c + (d + e)))) + rest == a + (b + (c + (d + (e + rest))))
  {
    Assoc(a, b + (c + (d + e)), rest);
    Assoc(b, c + (d + e), rest);
    Assoc(c, d + e, rest);
    Assoc(d, e, rest);
  }

  lemma PartsRead(s0: byte, n: nat, defs: Bytes, eof: Bytes, rows: Bytes, last: Bytes, rest: Bytes)
    requires 1 <= n < FRAME
    ensures ReadAnswer((Framed(s0, CountPayload(n)) + (defs + (eof + (rows + last)))) + rest)
         == ReadResultSet(ParseColumn, n, defs + (eof + (rows + (last + rest))))
  {
    Regroup(Framed(s0, CountPayload(n)), defs, eof, rows, last, rest);
    HeadReads(s0, n, defs + (eof + (rows + (last + rest))));
  }

  lemma AnswerReads(s0: byte, d: nat, definitions: seq<Bytes>, names: seq<Bytes>, s1: byte, r: nat, rows: seq<Bytes>,
      s2: byte, rest: Bytes)
    requires 1 <= |definitions| < FRAME && ParseTo(ParseColumn, definitions, names)
    ensures var read := ReadRows(Frames(r, rows) + (Framed(s2, EOF) + rest));
            var answer := Answer(s0, CountPayload(|definitions|), d, definitions, s1, r, rows, s2);
            read.Some? ==> ReadAnswer(answer + rest) == Some((ResultSet(names, read.value.0), read.value.1))
  {
    var last := Framed(s2, EOF);
    PartsRead(s0, |definitions|, Frames(d, definitions), Framed(s1, EOF), Frames(r, rows), last, rest);
    var closing := Frames(r, rows) + (last + rest);
    if ReadRows(closing).Some? {
      BodyReads(ParseColumn, d, definitions, names, s1, closing);
    }
  }

  ghost predicate ColumnsFit(columns: seq<Column>) {
    forall c :: c in columns ==> |ColumnPayload(c)| < FRAME
  }

  ghost predicate RowsFit(rows: seq<seq<Option<Bytes>>>) {
    forall r :: r in rows ==> |RowPayload(r)| < FRAME
  }

  lemma OneMoreParsed(parse: Bytes -> Option<Bytes>, payload: Bytes, name: Bytes, payloads: seq<Bytes>,
      names: seq<Bytes>)
    requires |payload| < FRAME && parse(payload) == Some(name) && ParseTo(parse, payloads, names)
    ensures ParseTo(parse, [payload] + payloads, [name] + names)
  {
  }

  lemma {:induction false} ColumnPayloadsRead(columns: seq<Column>)
    requires ColumnsFit(columns)
    ensures ParseTo(ParseColumn, ColumnPayloads(columns), NamesOf(columns))
  {
    if columns != [] {
      var c := columns[0];
      assert c in columns;
      ColumnFits(c);
      ColumnReads(c);
      ColumnPayloadsRead(columns[1..]);
      OneMoreParsed(ParseColumn, ColumnPayload(c), c.name, ColumnPayloads(columns[1..]), NamesOf(columns[1..]));
    }
  }

  /**
    * The client gets the column names and every cell, NULL apart from text, and stops at the closing EOF:
    * exactly when no row is without cells. It does not look at the numbering.
    */
  lemma ResultSetRoundTrip(s0: byte, d: nat, columns: seq<Column>, s1: byte, r: nat, rows: seq<seq<Option<Bytes>>>,
      s2: byte, rest: Bytes)
    requires 1 <= |columns| < FRAME && ColumnsFit(columns) && RowsFit(rows)
    ensures var answer := Answer(s0, CountPayload(|columns|), d, ColumnPayloads(columns), s1, r, RowPayloads(rows), s2);
            ReadAnswer(answer + rest) == Some((ResultSet(NamesOf(columns), rows), rest)) <==> [] !in rows
  {
    ColumnPayloadsRead(columns);
    RowsRead(r, rows, s2, rest);
    AnswerReads(s0, d, ColumnPayloads(columns), NamesOf(columns), s1, r, RowPayloads(rows), s2, rest);
  }

  /** From 2^24 columns on the count begins with 0xFE and the client takes the whole answer for an empty OK. */
  lemma ManyColumnsReadAsOk(seqId: byte, count: nat, body: Bytes)
    requires FRAME <= count < U64
    ensures ReadAnswer(Framed(seqId, CountPayload(count)) + body) == Some((OkResult(0, 0), body))
  {
    PacketReads(seqId, CountPayload(count), body);
  }

  /** An OK packet tells the client the row count and the insert id. */
  lemma OkRoundTrip(seqId: byte, affected: u64, last: u64, status: u16, rest: Bytes)
    ensures ReadAnswer(Framed(seqId, OkPayload(affected, last, status)) + rest) == Some((OkResult(affected, last), rest))
  {
    var tail := Little(status, 2) + Little(0, 2);
    var payload := OkPayload(affected, last, status);
    PacketReads(seqId, payload, rest);
    LenIntReads(affected, LenInt(last) + tail);
    LenIntReads(last, tail);
    var n := |LenInt(affected)|;
    assert payload[1..] == LenInt(affected) + (LenInt(last) + tail);
    assert payload[1..][n..] == LenInt(last) + tail;
    assert payload[1 + n..] == payload[1..][n..];
  }

  /** An error packet tells the client its code; the message arrives behind the state marker "#HY000". */
  lemma ErrorRoundTrip(seqId: byte, code: u16, message: Str, rest: Bytes)
    requires |message| + 9 < FRAME
    ensures ReadAnswer(Framed(seqId, ErrPayload(code, message)) + rest) == Some((ErrorResult(code, STATE + message), rest))
  {
    var payload := ErrPayload(code, message);
    PacketReads(seqId, payload, rest);
    Widths();
    LittleRoundTrip(code, 2);
    assert payload[1..3] == Little(code, 2) && payload[3..] == STATE + message;
  }

  // ---- From values to the client's cells --------------------------------------------------------------------

  /**
    * What the client sees of a value: nothing for NULL, the bytes of texts and binaries, the rendering of all others.
    */
  predicate Shows(cell: Option<Bytes>, v: Value, platform: Platform) {
    && (cell == None <==> v == Null)
    && (v.Text? ==> cell == Some(v.t))
    && (v.Bytes? ==> cell == Some(v.b))
    && (!v.Null? && !v.Text? && !v.Bytes? ==> cell == Some((platform.render)(v)))
  }

  predicate RowShown(cells: seq<Option<Bytes>>, values: seq<Value>, platform: Platform) {
    |cells| == |values| && forall i :: 0 <= i < |values| ==> Shows(cells[i], values[i], platform)
  }

  /** How many bytes a text of that length takes with its length in front. */
  function Framing(n: nat): nat {
    n + if n < 251 then 1 else if n < 0x1_0000 then 3 else if n < FRAME then 4 else 9
  }

  /** How many bytes a value takes in a row. */
  function Width(v: Value, platform: Platform): nat {
    if v.Null? then 1
    else Framing(if v.Text? then |v.t| else if v.Bytes? then |v.b| else |(platform.render)(v)|)
  }

  function RowWidth(values: seq<Value>, platform: Platform): nat {
    if values == [] then 0 else Width(values[0], platform) + RowWidth(values[1..], platform)
  }

  /** The row fits a packet and reads back as its values. */
  ghost predicate PayloadShows(payload: Bytes, values: seq<Value>, platform: Platform) {
    RowWidth(values, platform) < FRAME ==>
      && |payload| == RowWidth(values, platform)
      && ParseCells(payload).Some? && RowShown(ParseCells(payload).value, values, platform)
  }

  lemma LenIntWidth(n: u64)
    requires n < FRAME
    ensures n + |LenInt(n)| == Framing(n)
  {
  }

  lemma LenStrWidth(s: Bytes)
    requires |s| < FRAME
    ensures |LenStr(s)| == Framing(|s|)
  {
    LenIntWidth(|s|);
  }

  lemma CellShows(v: Value, platform: Platform)
    ensures Shows(CellBytes(v, platform), v, platform)
    ensures Width(v, platform) < FRAME ==> |EncCell(CellBytes(v, platform))| == Width(v, platform)
  {
    if v != Null && Width(v, platform) < FRAME {
      LenStrWidth(CellBytes(v, platform).value);
    }
  }

  lemma {:induction false} CellsShow(values: seq<Value>, platform: Platform)
    ensures RowShown(CellsOf(values, platform), values, platform)
    ensures RowWidth(values, platform) < FRAME ==> |RowPayload(CellsOf(values, platform))| == RowWidth(values, platform)
  {
    if values != [] {
      CellShows(values[0], platform);
      CellsShow(values[1..], platform);
      var rest := CellsOf(values[1..], platform);
      assert CellsOf(values, platform)[1..] == rest;
      forall i | 0 <= i < |values| ensures Shows(CellsOf(values, platform)[i], values[i], platform) {
        if i > 0 {
          assert CellsOf(values, platform)[i] == rest[i - 1] && values[i] == values[1..][i - 1];
        }
      }
    }
  }

  /** A row of values, sent and read, shows every value, NULL told apart from the text NULL. */
  lemma ValuesRead(values: seq<Value>, platform: Platform)
    ensures PayloadShows(RowPayload(CellsOf(values, platform)), values, platform)
  {
    CellsShow(values, platform);
    if RowWidth(values, platform) < FRAME {
      FittingRow(CellsOf(values, platform));
    }
  }

  /** The client's result: the column names, and for every row the values it shows. */
  ghost predicate AnswerShows(read: Parsed<QueryResult>, columns: seq<Column>, rows: seq<seq<Value>>,
      platform: Platform,
      rest: Bytes) {
    && read.Some? && read.value.1 == rest && read.value.0.ResultSet?
    && |read.value.0.names| == |columns| && (forall i :: 0 <= i < |columns| ==> read.value.0.names[i] == columns[i].name)
    && |read.value.0.rows| == |rows| && forall i :: 0 <= i < |rows| ==> RowShown(read.value.0.rows[i], rows[i], platform)
  }

  /** At least one column, no empty row, and everything fits a packet. */
  ghost predicate Sendable(columns: seq<Column>, rows: seq<seq<Value>>, platform: Platform) {
    && 1 <= |columns| < FRAME && ColumnsFit(columns)
    && forall r :: r in rows ==> r != [] && RowWidth(r, platform) < FRAME
  }

  /** What is sent for columns and rows of values reads back as their names and values. */
  lemma SentRowsShow(s0: byte, d: nat, columns: seq<Column>, s1: byte, r: nat, rows: seq<seq<Value>>,
      platform: Platform,
      s2: byte, rest: Bytes)
    requires Sendable(columns, rows, platform)
    ensures var answer := Answer(s0, CountPayload(|columns|), d, ColumnPayloads(columns), s1, r, RowPayloads(CellRows(rows, platform)), s2);
            AnswerShows(ReadAnswer(answer + rest), columns, rows, platform, rest)
  {
    var cells := CellRows(rows, platform);
    forall i | 0 <= i < |rows| ensures cells[i] != [] && |RowPayload(cells[i])| < FRAME && RowShown(cells[i], rows[i], platform) {
      assert rows[i] in rows;
      CellsShow(rows[i], platform);
    }
    ResultSetRoundTrip(s0, d, columns, s1, r, cells, s2, rest);
  }

  // ---- The loops -----------------------------------------------------------------------------------------------

  lemma {:induction false} CellAt(values: seq<Value>, platform: Platform, i: nat)
    requires i < |values|
    ensures CellsOf(values, platform)[i] == CellBytes(values[i], platform)
  {
    if i > 0 {
      CellAt(values[1..], platform, i - 1);
    }
  }

  lemma RowGrows(payload: Bytes, cells: seq<Option<Bytes>>, i: nat)
    requires i < |cells|
    ensures payload + RowPayload(cells[i..]) == (payload + EncCell(cells[i])) + RowPayload(cells[i + 1..])
  {
    assert cells[i..][1..] == cells[i + 1..];
    Assoc(payload, EncCell(cells[i]), RowPayload(cells[i + 1..]));
  }

  method TextRowPayload(values: seq<Value>, platform: Platform) returns (payload: Bytes)
    ensures payload == RowPayload(CellsOf(values, platform))
    ensures PayloadShows(payload, values, platform)
  {
    ValuesRead(values, platform);
    ghost var cells := CellsOf(values, platform);
    payload := [];
    assert cells[0..] == cells && [] + RowPayload(cells) == RowPayload(cells);
    for i := 0 to |values|
      invariant payload + RowPayload(cells[i..]) == RowPayload(cells)
    {
      CellAt(values, platform, i);
      RowGrows(payload, cells, i);
      match values[i] {
        case Null => payload := payload + [0xFB];
        case Bytes(b) => payload := payload + LenStr(b);
        case Text(t) => payload := payload + LenStr(t);
        case _ => payload := payload + LenStr((platform.render)(values[i]));
      }
    }
    assert cells[|values|..] == [] && payload + [] == payload;
  }

  ghost function Behind<T>(done: seq<T>, rest: Option<seq<T>>): Option<seq<T>> {
    match rest
    case None => None
    case Some(xs) => Some(done + xs)
  }

  lemma NothingBefore<T>(rest: Option<seq<T>>)
    ensures Behind([], rest) == rest
  {
    if rest.Some? {
      assert [] + rest.value == rest.value;
    }
  }

  lemma AppendOne<T>(done: seq<T>, x: T, rest: Option<seq<T>>)
    ensures Behind(done + [x], rest) == Behind(done, Behind([x], rest))
  {
    if rest.Some? {
      assert done + [x] + rest.value == done + ([x] + rest.value);
    }
  }

  method ReadCells(payload: Bytes) returns (cells: Option<seq<Option<Bytes>>>)
    ensures cells == ParseCells(payload)
  {
    var pos: nat := 0;
    var row: seq<Option<Bytes>> := [];
    assert payload[0..] == payload;
    NothingBefore(ParseCells(payload));
    while pos < |payload|
      invariant pos <= |payload|
      invariant ParseCells(payload) == Behind(row, ParseCells(payload[pos..]))
    {
      var left := payload[pos..];
      if payload[pos] == 0xFB {
        assert left[1..] == payload[pos + 1..];
        AppendOne(row, None, ParseCells(left[1..]));
        row := row + [None];
        pos := pos + 1;
      } else {
        var cell := ParseStr(left);
        if cell == None {
          return None;
        }
        assert left[cell.value.1..] == payload[pos + cell.value.1..];
        AppendOne(row, Some(cell.value.0), ParseCells(left[cell.value.1..]));
        row := row + [Some(cell.value.0)];
        pos := pos + cell.value.1;
      }
    }
    assert payload[|payload|..] == [] && row + [] == row;
    cells := Some(row);
  }

  // What `Answer` holds, packet after packet.
  ghost predicate Sent(now: Bytes, before: Bytes, first: nat, payloads: seq<Bytes>, next: byte) {
    now == before + Frames(first, payloads) && next == (first + |payloads|) % 256
  }

  lemma NextNumber(first: nat, n: nat)
    ensures ((first + n) % 256 + 1) % 256 == (first + (n + 1)) % 256
  {
  }

  lemma SentOneMore(now: Bytes, before: Bytes, first: nat, payloads: seq<Bytes>, next: byte, payload: Bytes)
    requires Sent(now, before, first, payloads, next)
    ensures Sent(now + Framed(next, payload), before, first, payloads + [payload], (next + 1) % 256)
  {
    OneMoreFrame(first, payloads, payload);
    NextNumber(first, |payloads|);
    Assoc(before, Frames(first, payloads), Framed(next, payload));
  }

  lemma {:induction false} PayloadsGrow(columns: seq<Column>, i: nat)
    requires i < |columns|
    ensures ColumnPayloads(columns)[..i + 1] == ColumnPayloads(columns)[..i] + [ColumnPayload(columns[i])]
  {
    if i > 0 {
      PayloadsGrow(columns[1..], i - 1);
      assert ColumnPayloads(columns) == [ColumnPayload(columns[0])] + ColumnPayloads(columns[1..]);
      var p := ColumnPayloads(columns[1..]);
      assert p[i - 1] == p[..i][i - 1];
    }
  }

  /** One packet per column. */
  method SendColumns(pipe: Pipe, seqId: byte, columns: seq<Column>) returns (next: byte)
    modifies pipe
    ensures pipe.bytes == old(pipe.bytes) + Frames(seqId, ColumnPayloads(columns)) && next == (seqId + |columns|) % 256
  {
    next := seqId;
    assert Sent(pipe.bytes, old(pipe.bytes), seqId, [], next);
    for i := 0 to |columns|
      invariant Sent(pipe.bytes, old(pipe.bytes), seqId, ColumnPayloads(columns)[..i], next)
    {
      PayloadsGrow(columns, i);
      SentOneMore(pipe.bytes, old(pipe.bytes), seqId, ColumnPayloads(columns)[..i], next, ColumnPayload(columns[i]));
      pipe.WritePacket(next, ColumnPayload(columns[i]));
      next := (next + 1) % 256;
    }
    assert ColumnPayloads(columns)[..|columns|] == ColumnPayloads(columns);
  }

  /** One packet per row. */
  method SendCells(pipe: Pipe, seqId: byte, rows: seq<seq<Value>>, platform: Platform) returns (next: byte)
    modifies pipe
    ensures pipe.bytes == old(pipe.bytes) + Frames(seqId, RowPayloads(CellRows(rows, platform))) && next == (seqId + |rows|) % 256
  {
    next := seqId;
    ghost var payloads := RowPayloads(CellRows(rows, platform));
    assert Sent(pipe.bytes, old(pipe.bytes), seqId, [], next);
    for i := 0 to |rows|
      invariant Sent(pipe.bytes, old(pipe.bytes), seqId, payloads[..i], next)
    {
      var payload := TextRowPayload(rows[i], platform);
      assert payloads[..i + 1] == payloads[..i] + [payload];
      SentOneMore(pipe.bytes, old(pipe.bytes), seqId, payloads[..i], next, payload);
      pipe.WritePacket(next, payload);
      next := (next + 1) % 256;
    }
    assert payloads[..|rows|] == payloads;
  }

  /** EOF, the rows, EOF. */
  method SendTail(pipe: Pipe, seqId: byte, rows: seq<seq<Value>>, platform: Platform) returns (next: byte,
      ghost r: byte, ghost s2: byte)
    modifies pipe
    ensures r == (seqId + 1) % 256 && s2 == (r + |rows|) % 256 && next == (s2 + 1) % 256
    ensures pipe.bytes == old(pipe.bytes) + (Framed(seqId, EOF) + (Frames(r, RowPayloads(CellRows(rows, platform))) + Framed(s2, EOF)))
  {
    ghost var before := pipe.bytes;
    pipe.WritePacket(seqId, EOF);
    r := (seqId + 1) % 256;
    next := SendCells(pipe, (seqId + 1) % 256, rows, platform);
    s2 := next;
    pipe.WritePacket(next, EOF);
    next := (next + 1) % 256;
    ghost var middle := Frames(r, RowPayloads(CellRows(rows, platform)));
    Assoc(before + Framed(seqId, EOF), middle, Framed(s2, EOF));
    Assoc(before, Framed(seqId, EOF), middle + Framed(s2, EOF));
  }

  /** The count and the columns. */
  method SendHead(pipe: Pipe, seqId: byte, columns: seq<Column>) returns (next: byte, ghost d: byte)
    modifies pipe
    ensures d == (seqId + 1) % 256 && next == (d + |columns|) % 256
    ensures pipe.bytes == old(pipe.bytes) + (Framed(seqId, CountPayload(|columns|)) + Frames(d, ColumnPayloads(columns)))
  {
    ghost var before, count := pipe.bytes, Framed(seqId, CountPayload(|columns|));
    pipe.WritePacket(seqId, CountPayload(|columns|));
    d := (seqId + 1) % 256;
    next := SendColumns(pipe, (seqId + 1) % 256, columns);
    Assoc(before, count, Frames(d, ColumnPayloads(columns)));
  }

  /** What was sent after `before`, whatever follows it, shows these rows to the client. */
  ghost predicate SentShows(now: Bytes, before: Bytes, columns: seq<Column>, rows: seq<seq<Value>>,
      platform: Platform) {
    exists answer ::
      && now == before + answer
      && forall rest :: AnswerShows(ReadAnswer(answer + rest), columns, rows, platform, rest)
  }

  /** The packets that answer a query with columns and rows; the sequence number goes on where they end. */
  method SendRows(pipe: Pipe, seqId: byte, columns: seq<Column>, rows: seq<seq<Value>>, platform: Platform)
    returns (next: byte, ghost d: byte, ghost s1: byte, ghost r: byte, ghost s2: byte)
    modifies pipe
    ensures d == (seqId + 1) % 256 && s1 == (d + |columns|) % 256
    ensures r == (s1 + 1) % 256 && s2 == (r + |rows|) % 256 && next == (s2 + 1) % 256
    ensures pipe.bytes == old(pipe.bytes)
                          + Answer(seqId, CountPayload(|columns|), d, ColumnPayloads(columns), s1, r, RowPayloads(CellRows(rows, platform)), s2)
    ensures Sendable(columns, rows, platform) ==> SentShows(pipe.bytes, old(pipe.bytes), columns, rows, platform)
  {
    ghost var before := pipe.bytes;
    next, d := SendHead(pipe, seqId, columns);
    s1 := next;
    next, r, s2 := SendTail(pipe, next, rows, platform);
    ThreeParts(before, Framed(seqId, CountPayload(|columns|)), Frames(d, ColumnPayloads(columns)),
               Framed(s1, EOF) + (Frames(r, RowPayloads(CellRows(rows, platform))) + Framed(s2, EOF)));
    ghost var answer := Answer(seqId, CountPayload(|columns|), d, ColumnPayloads(columns), s1, r, RowPayloads(CellRows(rows, platform)), s2);
    assert pipe.bytes == before + answer;
    if Sendable(columns, rows, platform) {
      forall rest: Bytes ensures AnswerShows(ReadAnswer(answer + rest), columns, rows, platform, rest) {
        SentRowsShow(seqId, d, columns, s1, r, rows, platform, s2, rest);
      }
      assert SentShows(before + answer, before, columns, rows, platform);
    }
  }

  lemma ThreeParts(before: Bytes, a: Bytes, b: Bytes, c: Bytes)
    ensures (before + (a + b)) + c == before + (a + (b + c))
  {
    Assoc(before, a + b, c);
    Assoc(a, b, c);
  }

  // ---- The client's loops --------------------------------------------------------------------------------------

  method ReceiveNames(pipe: Pipe, count: nat) returns (names: Option<seq<Bytes>>)
    modifies pipe
    ensures match ReadNames(ParseColumn, count, old(pipe.bytes))
            case None => names == None
            case Some((ns, rest)) => names == Some(ns) && pipe.bytes == rest
  {
    var done: seq<Bytes> := [];
    ghost var goal := ReadNames(ParseColumn, count, pipe.bytes);
    NothingRead(goal);
    for i := 0 to count
      invariant goal == After(done, ReadNames(ParseColumn, count - i, pipe.bytes))
    {
      var packet := pipe.ReadPacket();
      if packet == None {
        return None;
      }
      var name := ParseColumn(packet.value.payload);
      if name == None {
        return None;
      }
      ReadOneMore(done, name.value, ReadNames(ParseColumn, count - i - 1, pipe.bytes));
      done := done + [name.value];
    }
    assert done + [] == done;
    names := Some(done);
  }

  ghost function After<T>(done: seq<T>, rest: Parsed<seq<T>>): Parsed<seq<T>> {
    match rest
    case None => None
    case Some((xs, b)) => Some((done + xs, b))
  }

  lemma NothingRead<T>(rest: Parsed<seq<T>>)
    ensures After([], rest) == rest
  {
    if rest.Some? {
      assert [] + rest.value.0 == rest.value.0;
    }
  }

  lemma ReadOneMore<T>(done: seq<T>, x: T, rest: Parsed<seq<T>>)
    ensures After(done + [x], rest) == After(done, After([x], rest))
  {
    if rest.Some? {
      assert done + [x] + rest.value.0 == done + ([x] + rest.value.0);
    }
  }

  method ReceiveRows(pipe: Pipe) returns (rows: Option<seq<seq<Option<Bytes>>>>)
    modifies pipe
    ensures match ReadRows(old(pipe.bytes))
            case None => rows == None
            case Some((rs, rest)) => rows == Some(rs) && pipe.bytes == rest
  {
    var done: seq<seq<Option<Bytes>>> := [];
    ghost var goal := ReadRows(pipe.bytes);
    NothingRead(goal);
    while true
      invariant goal == After(done, ReadRows(pipe.bytes))
      decreases |pipe.bytes|
    {
      var packet := pipe.ReadPacket();
      if packet == None {
        return None;
      }
      if EndsRows(packet.value.payload) {
        assert done + [] == done;
        return Some(done);
      }
      var cells := ReadCells(packet.value.payload);
      if cells == None {
        return None;
      }
      ReadOneMore(done, cells.value, ReadRows(pipe.bytes));
      done := done + [cells.value];
    }
  }

  /** `execute_query` after it has sent its query. */
  method ReceiveAnswer(pipe: Pipe) returns (result: Option<QueryResult>)
    modifies pipe
    ensures match ReadAnswer(old(pipe.bytes))
            case None => result == None
            case Some((q, rest)) => result == Some(q) && pipe.bytes == rest
  {
    var packet := pipe.ReadPacket();
    if packet == None || packet.value.payload == [] {
      return None;
    }
    var payload := packet.value.payload;
    if payload[0] == 0x00 {
      var affected := ParseInt(payload[1..]);
      if affected == None || 1 + affected.value.1 > |payload| {
        return None;
      }
      var last := ParseInt(payload[1 + affected.value.1..]);
      return if last == None then None else Some(OkResult(affected.value.0, last.value.0));
    } else if payload[0] == 0xFF {
      return if |payload| < 3 then None else Some(ErrorResult(FromLittle(payload[1..3]), payload[3..]));
    } else if payload[0] == 0xFE {
      return Some(OkResult(0, 0));
    }
    var count := ParseInt(payload);
    if count == None {
      return None;
    }
    var names := ReceiveNames(pipe, count.value.0);
    if names == None {
      return None;
    }
    var eof := pipe.ReadPacket();
    if eof == None {
      return None;
    }
    var rows := ReceiveRows(pipe);
    return if rows == None then None else Some(ResultSet(names.value, rows.value));
  }
}
