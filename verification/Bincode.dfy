/**
  * bincode 1 with its default options: fixed-width little-endian integers, u64 lengths, u32 variant numbers, trailing
  * bytes allowed.
  */
module Bincode {
  import opened Prelude
  import opened Types
  import opened Index

  type Bytes = seq<byte>

  /** What a decoder yields: a value and the bytes after it. */
  type Parsed<T> = Option<(T, Bytes)>

  /** `dec` reads back what `enc` wrote for `x`, whatever follows. */
  ghost predicate Codes<T(!new)>(enc: T -> Bytes, dec: Bytes -> Parsed<T>, x: T) {
    forall rest: Bytes :: dec(enc(x) + rest) == Some((x, rest))
  }

  lemma Assoc(a: Bytes, b: Bytes, c: Bytes)
    ensures (a + b) + c == a + (b + c)
  {
  }

  // ---- Integers ----------------------------------------------------------------------------

  function Little(n: nat, w: nat): (b: Bytes)
    ensures |b| == w
  {
    if w == 0 then [] else [n % 256] + Little(n / 256, w - 1)
  }

  function FromLittle(b: Bytes): nat {
    if b == [] then 0 else b[0] + 256 * FromLittle(b[1..])
  }

  function Pow256(w: nat): nat {
    if w == 0 then 1 else 256 * Pow256(w - 1)
  }

  lemma {:induction false} LittleRoundTrip(n: nat, w: nat)
    requires n < Pow256(w)
    ensures FromLittle(Little(n, w)) == n
  {
    if w > 0 {
      LittleRoundTrip(n / 256, w - 1);
      assert Little(n, w)[1..] == Little(n / 256, w - 1);
    }
  }

  lemma Widths()
    ensures Pow256(1) == 0x100 && Pow256(2) == 0x1_0000 && Pow256(4) == 0x1_0000_0000 && Pow256(8) == 0x1_0000_0000_0000_0000
  {
    assert Pow256(2) == 256 * Pow256(1);
    assert Pow256(4) == 256 * (256 * Pow256(2));
    assert Pow256(6) == 256 * (256 * Pow256(4));
    assert Pow256(8) == 256 * (256 * Pow256(6));
  }

  const U64: nat := 0x1_0000_0000_0000_0000

  function DecLittle(w: nat, b: Bytes): Parsed<nat> {
    if |b| < w then None else Some((FromLittle(b[..w]), b[w..]))
  }

  lemma DecLittleReads(n: nat, w: nat, rest: Bytes)
    requires n < Pow256(w)
    ensures DecLittle(w, Little(n, w) + rest) == Some((n, rest))
  {
    LittleRoundTrip(n, w);
    assert (Little(n, w) + rest)[..w] == Little(n, w) && (Little(n, w) + rest)[w..] == rest;
  }

  function EncU64(n: nat): Bytes { Little(n, 8) }

  function DecU64(b: Bytes): Parsed<nat> { DecLittle(8, b) }

  function EncI64(n: i64): Bytes {
    Little(if n < 0 then n + U64 else n, 8)
  }

  lemma {:induction false} FromLittleBound(b: Bytes)
    ensures FromLittle(b) < Pow256(|b|)
  {
    if b != [] {
      FromLittleBound(b[1..]);
    }
  }

  function DecBelow(w: nat, bound: nat, b: Bytes): (r: Parsed<nat>)
    ensures r.Some? ==> r.value.0 < bound
  {
    var (n, rest) :- DecLittle(w, b);
    if n < bound then Some((n, rest)) else None
  }

  function DecI64(b: Bytes): Parsed<i64> {
    var (n, rest) :- DecBelow(8, U64, b);
    Some((if n < 0x8000_0000_0000_0000 then n else n - U64, rest))
  }

  lemma I64Codes(n: i64)
    ensures Codes(EncI64, DecI64, n)
  {
    Widths();
    forall rest: Bytes ensures DecI64(EncI64(n) + rest) == Some((n, rest)) {
      DecLittleReads(if n < 0 then n + U64 else n, 8, rest);
    }
  }

  // ---- Strings -----------------------------------------------------------------------------------

  predicate Continuation(s: Bytes, i: nat, low: nat, high: nat) {
    i < |s| && low <= s[i] <= high
  }

  /** The length of the UTF-8 sequence at the front of `s`; 0 if there is none. */
  function CharLength(s: Bytes): nat {
    if s == [] then 0
    else if s[0] < 0x80 then 1
    else if 0xC2 <= s[0] <= 0xDF then (if Continuation(s, 1, 0x80, 0xBF) then 2 else 0)
    else if 0xE0 <= s[0] <= 0xEF then
      var low, high := if s[0] == 0xE0 then 0xA0 else 0x80, if s[0] == 0xED then 0x9F else 0xBF;
      if Continuation(s, 1, low, high) && Continuation(s, 2, 0x80, 0xBF) then 3 else 0
    else if 0xF0 <= s[0] <= 0xF4 then
      var low, high := if s[0] == 0xF0 then 0x90 else 0x80, if s[0] == 0xF4 then 0x8F else 0xBF;
      if Continuation(s, 1, low, high) && Continuation(s, 2, 0x80, 0xBF) && Continuation(s, 3, 0x80, 0xBF) then 4 else 0
    else 0
  }

  predicate Utf8(s: Bytes) {
    s == [] || (var n := CharLength(s); 0 < n <= |s| && Utf8(s[n..]))
  }

  predicate FitsStr(s: Str) {
    |s| < U64 && Utf8(s)
  }

  function EncBytes(s: Bytes): Bytes { Little(|s|, 8) + s }

  function SizeStr(s: Str): nat { 8 + |s| }

  function DecBytes(b: Bytes): (r: Parsed<Bytes>)
    ensures r.Some? ==> |b| == SizeStr(r.value.0) + |r.value.1|
  {
    var (n, rest) :- DecLittle(8, b);
    if n <= |rest| then Some((rest[..n], rest[n..])) else None
  }

  function DecStr(b: Bytes): (r: Parsed<Str>)
    ensures r.Some? ==> |b| == SizeStr(r.value.0) + |r.value.1|
  {
    var (s, rest) :- DecBytes(b);
    if Utf8(s) then Some((s, rest)) else None
  }

  lemma BytesCodes(s: Bytes)
    requires |s| < U64
    ensures Codes(EncBytes, DecBytes, s)
  {
    Widths();
    forall rest: Bytes ensures DecBytes(EncBytes(s) + rest) == Some((s, rest)) {
      Assoc(Little(|s|, 8), s, rest);
      DecLittleReads(|s|, 8, s + rest);
      assert (s + rest)[..|s|] == s && (s + rest)[|s|..] == rest;
    }
  }

  lemma StrCodes(s: Str)
    requires FitsStr(s)
    ensures Codes(EncBytes, DecStr, s)
  {
    BytesCodes(s);
    forall rest: Bytes ensures DecStr(EncBytes(s) + rest) == Some((s, rest)) {
      assert DecBytes(EncBytes(s) + rest) == Some((s, rest));
    }
  }

  // ---- Vectors -------------------------------------------------------------------------------------

  function EncAll<T>(enc: T -> Bytes, xs: seq<T>): Bytes {
    if xs == [] then [] else enc(xs[0]) + EncAll(enc, xs[1..])
  }

  function EncSeq<T>(enc: T -> Bytes, xs: seq<T>): Bytes {
    Little(|xs|, 8) + EncAll(enc, xs)
  }

  lemma {:induction false} EncAllBack<T>(enc: T -> Bytes, xs: seq<T>)
    requires xs != []
    ensures EncAll(enc, xs) == EncAll(enc, xs[..|xs| - 1]) + enc(xs[|xs| - 1])
  {
    if |xs| > 1 {
      EncAllBack(enc, xs[1..]);
      assert xs[1..][..|xs| - 2] == xs[..|xs| - 1][1..];
    }
  }

  function DecAll<T>(dec: Bytes -> Parsed<T>, n: nat, b: Bytes): Parsed<seq<T>> {
    if n == 0 then Some(([], b))
    else
      var (x, rest) :- dec(b);
      var (xs, rest') :- DecAll(dec, n - 1, rest);
      Some(([x] + xs, rest'))
  }

  function DecSeq<T>(dec: Bytes -> Parsed<T>, b: Bytes): Parsed<seq<T>> {
    var (n, rest) :- DecLittle(8, b);
    DecAll(dec, n, rest)
  }

  lemma {:induction false} DecAllReads<T(!new)>(enc: T -> Bytes, dec: Bytes -> Parsed<T>, xs: seq<T>, rest: Bytes)
    requires forall x :: x in xs ==> Codes(enc, dec, x)
    ensures DecAll(dec, |xs|, EncAll(enc, xs) + rest) == Some((xs, rest))
  {
    if xs == [] {
      assert EncAll(enc, xs) + rest == rest;
    } else {
      assert Codes(enc, dec, xs[0]);
      Assoc(enc(xs[0]), EncAll(enc, xs[1..]), rest);
      DecAllReads(enc, dec, xs[1..], rest);
      assert [xs[0]] + xs[1..] == xs;
    }
  }

  lemma DecSeqReads<T(!new)>(enc: T -> Bytes, dec: Bytes -> Parsed<T>, xs: seq<T>, rest: Bytes)
    requires |xs| < U64 && forall x :: x in xs ==> Codes(enc, dec, x)
    ensures DecSeq(dec, EncSeq(enc, xs) + rest) == Some((xs, rest))
  {
    Widths();
    Assoc(Little(|xs|, 8), EncAll(enc, xs), rest);
    DecLittleReads(|xs|, 8, EncAll(enc, xs) + rest);
    DecAllReads(enc, dec, xs, rest);
  }

  // ---- Values and rows ---------------------------------------------------------------------------------

  predicate FitsValue(v: Value) {
    match v
    case Bytes(b) => |b| < U64
    case Text(t) => FitsStr(t)
    case _ => true
  }

  function EncValue(v: Value): Bytes {
    match v
    case Null => Little(0, 4)
    case Int(n) => Little(1, 4) + EncI64(n)
    case UInt(n) => Little(2, 4) + Little(n, 8)
    case Float(n) => Little(3, 4) + Little(n, 4)
    case Double(n) => Little(4, 4) + Little(n, 8)
    case Bytes(b) => Little(5, 4) + EncBytes(b)
    case Text(t) => Little(6, 4) + EncBytes(t)
  }

  function DecValue(b: Bytes): Parsed<Value> {
    var (tag, rest) :- DecLittle(4, b);
    if tag == 0 then Some((Null, rest))
    else if tag == 1 then
      var (n, rest') :- DecI64(rest);
      Some((Int(n), rest'))
    else if tag == 2 then
      var (n, rest') :- DecBelow(8, U64, rest);
      Some((UInt(n), rest'))
    else if tag == 3 then
      var (n, rest') :- DecBelow(4, 0x1_0000_0000, rest);
      Some((Float(n), rest'))
    else if tag == 4 then
      var (n, rest') :- DecBelow(8, U64, rest);
      Some((Double(n), rest'))
    else if tag == 5 then
      var (s, rest') :- DecBytes(rest);
      Some((Value.Bytes(s), rest'))
    else if tag == 6 then
      var (s, rest') :- DecStr(rest);
      Some((Text(s), rest'))
    else None
  }

  lemma ValueCodes(v: Value)
    requires FitsValue(v)
    ensures Codes(EncValue, DecValue, v)
  {
    Widths();
    forall rest: Bytes ensures DecValue(EncValue(v) + rest) == Some((v, rest)) {
      match v {
        case Null => DecLittleReads(0, 4, rest);
        case Int(n) =>
          TagReads(1, EncI64(n), rest);
          I64Codes(n);
          assert DecI64(EncI64(n) + rest) == Some((n, rest));
        case UInt(n) =>
          TagReads(2, Little(n, 8), rest);
          DecLittleReads(n, 8, rest);
        case Float(n) =>
          TagReads(3, Little(n, 4), rest);
          DecLittleReads(n, 4, rest);
        case Double(n) =>
          TagReads(4, Little(n, 8), rest);
          DecLittleReads(n, 8, rest);
        case Bytes(b) =>
          TagReads(5, EncBytes(b), rest);
          BytesCodes(b);
          assert DecBytes(EncBytes(b) + rest) == Some((b, rest));
        case Text(t) =>
          TagReads(6, EncBytes(t), rest);
          StrCodes(t);
          assert DecStr(EncBytes(t) + rest) == Some((t, rest));
      }
    }
  }

  lemma TagReads(tag: nat, body: Bytes, rest: Bytes)
    requires tag < 0x1_0000_0000
    ensures DecLittle(4, (Little(tag, 4) + body) + rest) == Some((tag, body + rest))
  {
    Widths();
    Assoc(Little(tag, 4), body, rest);
    DecLittleReads(tag, 4, body + rest);
  }

  predicate FitsRow(r: Row) {
    r.id < U64 && |r.values| < U64 && forall v :: v in r.values ==> FitsValue(v)
  }

  function EncRow(r: Row): Bytes {
    Little(r.id, 8) + EncSeq(EncValue, r.values)
  }

  function DecRow(b: Bytes): Parsed<Row> {
    var (id, rest) :- DecLittle(8, b);
    var (values, rest') :- DecSeq(DecValue, rest);
    Some((Row(id, values), rest'))
  }

  lemma RowCodes(r: Row)
    requires FitsRow(r)
    ensures Codes(EncRow, DecRow, r)
  {
    Widths();
    forall v | v in r.values ensures Codes(EncValue, DecValue, v) { ValueCodes(v); }
    forall rest: Bytes ensures DecRow(EncRow(r) + rest) == Some((r, rest)) {
      Assoc(Little(r.id, 8), EncSeq(EncValue, r.values), rest);
      DecLittleReads(r.id, 8, EncSeq(EncValue, r.values) + rest);
      DecSeqReads(EncValue, DecValue, r.values, rest);
    }
  }

  predicate FitsRows(rows: seq<Row>) {
    |rows| < U64 && forall r :: r in rows ==> FitsRow(r)
  }

  lemma RowsRead(rows: seq<Row>, rest: Bytes)
    requires FitsRows(rows)
    ensures DecSeq(DecRow, EncSeq(EncRow, rows) + rest) == Some((rows, rest))
  {
    forall r | r in rows ensures Codes(EncRow, DecRow, r) { RowCodes(r); }
    DecSeqReads(EncRow, DecRow, rows, rest);
  }

  // ---- Columns and index definitions -------------------------------------------------------------------

  function EncBool(b: bool): Bytes { [if b then 1 else 0] }

  function DecBool(b: Bytes): Parsed<bool> {
    if b == [] || b[0] > 1 then None else Some((b[0] == 1, b[1..]))
  }

  lemma BoolReads(x: bool, rest: Bytes)
    ensures DecBool(EncBool(x) + rest) == Some((x, rest))
  {
    assert (EncBool(x) + rest)[1..] == rest;
  }

  function EncDefault(d: Option<DefaultExpr>): Bytes {
    match d
    case None => [0]
    case Some(DefaultValue(v)) => [1] + (Little(0, 4) + EncValue(v))
    case Some(CurrentTimestamp) => [1] + Little(1, 4)
  }

  function DecDefault(b: Bytes): Parsed<Option<DefaultExpr>> {
    if b == [] || b[0] > 1 then None
    else if b[0] == 0 then Some((None, b[1..]))
    else
      var (tag, rest) :- DecLittle(4, b[1..]);
      if tag == 0 then
        var (v, rest') :- DecValue(rest);
        Some((Some(DefaultValue(v)), rest'))
      else if tag == 1 then Some((Some(CurrentTimestamp), rest))
      else None
  }

  predicate FitsDefault(d: Option<DefaultExpr>) {
    d.Some? && d.value.DefaultValue? ==> FitsValue(d.value.v)
  }

  lemma HeadByte(x: byte, body: Bytes, rest: Bytes)
    ensures (([x] + body) + rest)[0] == x && (([x] + body) + rest)[1..] == body + rest
  {
  }

  lemma DefaultReads(d: Option<DefaultExpr>, rest: Bytes)
    requires FitsDefault(d)
    ensures DecDefault(EncDefault(d) + rest) == Some((d, rest))
  {
    Widths();
    match d {
      case None => assert (EncDefault(d) + rest)[1..] == rest;
      case Some(DefaultValue(v)) =>
        HeadByte(1, Little(0, 4) + EncValue(v), rest);
        TagReads(0, EncValue(v), rest);
        ValueCodes(v);
        assert DecValue(EncValue(v) + rest) == Some((v, rest));
      case Some(CurrentTimestamp) =>
        HeadByte(1, Little(1, 4), rest);
        DecLittleReads(1, 4, rest);
    }
  }

  /** The part of a column after its two names. */
  function EncColumnTail(c: Column): Bytes {
    Little(c.colType, 4) + (Little(c.columnLength, 4) + (Little(c.charset, 2) + (Little(c.flags, 2) + (Little(c.decimals, 1) +
                                                                                                       (EncBool(c.autoIncrement) + EncDefault(c.defaultExpr))))))
  }

  function EncColumn(c: Column): Bytes {
    EncBytes(c.name) + (EncBytes(c.table) + EncColumnTail(c))
  }

  function DecColumn(b: Bytes): Parsed<Column> {
    var (name, b1) :- DecStr(b);
    var (table, b2) :- DecStr(b1);
    var (colType, b3) :- DecBelow(4, 27, b2);
    var (length, b4) :- DecBelow(4, 0x1_0000_0000, b3);
    var (charset, b5) :- DecBelow(2, 0x1_0000, b4);
    var (flags, b6) :- DecBelow(2, 0x1_0000, b5);
    var (decimals, b7) :- DecBelow(1, 256, b6);
    var (auto, b8) :- DecBool(b7);
    var (default, b9) :- DecDefault(b8);
    Some((Column(name, table, colType, length, charset, flags, decimals, auto, default), b9))
  }

  predicate FitsColumn(c: Column) {
    FitsStr(c.name) && FitsStr(c.table) && FitsDefault(c.defaultExpr)
  }

  lemma FieldReads(n: nat, w: nat, tail: Bytes, rest: Bytes)
    requires n < Pow256(w)
    ensures DecLittle(w, (Little(n, w) + tail) + rest) == Some((n, tail + rest))
  {
    Assoc(Little(n, w), tail, rest);
    DecLittleReads(n, w, tail + rest);
  }

  lemma StrFieldReads(s: Str, tail: Bytes, rest: Bytes)
    requires FitsStr(s)
    ensures DecStr((EncBytes(s) + tail) + rest) == Some((s, tail + rest))
  {
    StrCodes(s);
    Assoc(EncBytes(s), tail, rest);
    assert DecStr(EncBytes(s) + (tail + rest)) == Some((s, tail + rest));
  }

  lemma ColumnCodes(c: Column)
    requires FitsColumn(c)
    ensures Codes(EncColumn, DecColumn, c)
  {
    Widths();
    forall rest: Bytes ensures DecColumn(EncColumn(c) + rest) == Some((c, rest)) {
      var t6 := EncBool(c.autoIncrement) + EncDefault(c.defaultExpr);
      var t5 := Little(c.decimals, 1) + t6;
      var t4 := Little(c.flags, 2) + t5;
      var t3 := Little(c.charset, 2) + t4;
      var t2 := Little(c.columnLength, 4) + t3;
      var t1 := EncColumnTail(c);
      StrFieldReads(c.name, EncBytes(c.table) + t1, rest);
      StrFieldReads(c.table, t1, rest);
      FieldReads(c.colType, 4, t2, rest);
      FieldReads(c.columnLength, 4, t3, rest);
      FieldReads(c.charset, 2, t4, rest);
      FieldReads(c.flags, 2, t5, rest);
      FieldReads(c.decimals, 1, t6, rest);
      Assoc(EncBool(c.autoIncrement), EncDefault(c.defaultExpr), rest);
      BoolReads(c.autoIncrement, EncDefault(c.defaultExpr) + rest);
      DefaultReads(c.defaultExpr, rest);
    }
  }

  predicate FitsColumns(columns: seq<Column>) {
    |columns| < U64 && forall c :: c in columns ==> FitsColumn(c)
  }

  lemma ColumnsRead(columns: seq<Column>, rest: Bytes)
    requires FitsColumns(columns)
    ensures DecSeq(DecColumn, EncSeq(EncColumn, columns) + rest) == Some((columns, rest))
  {
    forall c | c in columns ensures Codes(EncColumn, DecColumn, c) { ColumnCodes(c); }
    DecSeqReads(EncColumn, DecColumn, columns, rest);
  }

  function EncIndexDef(d: IndexDef): Bytes {
    EncBytes(d.name) + (Little(if d.indexType == BTree then 0 else 1, 4) + (EncBytes(d.tableName) +
                                                                            (EncSeq(EncBytes, d.columns) + EncBool(d.unique))))
  }

  function DecIndexDef(b: Bytes): Parsed<IndexDef> {
    var (name, b1) :- DecStr(b);
    var (kind, b2) :- DecBelow(4, 2, b1);
    var (table, b3) :- DecStr(b2);
    var (columns, b4) :- DecSeq(DecStr, b3);
    var (unique, b5) :- DecBool(b4);
    Some((IndexDef(name, if kind == 0 then BTree else Hash, table, columns, unique), b5))
  }

  predicate FitsIndexDef(d: IndexDef) {
    FitsStr(d.name) && FitsStr(d.tableName) && |d.columns| < U64 && forall c :: c in d.columns ==> FitsStr(c)
  }

  lemma IndexDefCodes(d: IndexDef)
    requires FitsIndexDef(d)
    ensures Codes(EncIndexDef, DecIndexDef, d)
  {
    Widths();
    forall c | c in d.columns ensures Codes(EncBytes, DecStr, c) { StrCodes(c); }
    forall rest: Bytes ensures DecIndexDef(EncIndexDef(d) + rest) == Some((d, rest)) {
      var t4 := EncBool(d.unique);
      var t3 := EncSeq(EncBytes, d.columns) + t4;
      var t2 := EncBytes(d.tableName) + t3;
      var kind := if d.indexType == BTree then 0 else 1;
      StrFieldReads(d.name, Little(kind, 4) + t2, rest);
      FieldReads(kind, 4, t2, rest);
      StrFieldReads(d.tableName, t3, rest);
      Assoc(EncSeq(EncBytes, d.columns), t4, rest);
      DecSeqReads(EncBytes, DecStr, d.columns, t4 + rest);
      BoolReads(d.unique, rest);
    }
  }
}
