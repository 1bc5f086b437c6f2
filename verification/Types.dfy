/** `src/engine/types.rs`: cell values and the total order on them that B-tree indexes use. */
module Types {
  import opened Prelude
  import opened Order

  /** Floats are carried as their IEEE bit patterns. */
  datatype Value =
    | Null
    | Int(i: i64)
    | UInt(u: u64)
    | Float(f: u32)
    | Double(d: u64)
    | Bytes(b: Str)
    | Text(t: Str)

  function VariantOrder(v: Value): nat {
    match v
    case Null => 0
    case Int(_) => 1
    case UInt(_) => 2
    case Float(_) => 3
    case Double(_) => 4
    case Bytes(_) => 5
    case Text(_) => 6
  }

  /**
    * The integer by which `f32::total_cmp` and `f64::total_cmp` order a bit pattern; `sign` is the weight of the sign
    * bit.
    */
  function TotalBits(bits: int, sign: int): int {
    if bits < sign then bits else sign - 1 - bits
  }

  function ValueCmp(a: Value, b: Value): Ordering {
    match (a, b)
    case (Null, Null) => Equal
    case (Int(x), Int(y)) => IntCmp(x, y)
    case (UInt(x), UInt(y)) => IntCmp(x, y)
    case (Float(x), Float(y)) => IntCmp(TotalBits(x, 0x8000_0000), TotalBits(y, 0x8000_0000))
    case (Double(x), Double(y)) => IntCmp(TotalBits(x, 0x8000_0000_0000_0000), TotalBits(y, 0x8000_0000_0000_0000))
    case (Bytes(x), Bytes(y)) => StrCmp(x, y)
    case (Text(x), Text(y)) => StrCmp(x, y)
    case _ => IntCmp(VariantOrder(a), VariantOrder(b))
  }

  lemma ValueCmpReverses(a: Value, b: Value)
    ensures ValueCmp(a, b) == Equal <==> a == b
    ensures ValueCmp(b, a) == ValueCmp(a, b).Reverse()
  {
    StrCmpIsLawful();
  }

  lemma ValueCmpTransitive(a: Value, b: Value, c: Value)
    requires ValueCmp(a, b) == Less && ValueCmp(b, c) == Less
    ensures ValueCmp(a, c) == Less
  {
    StrCmpIsLawful();
    match a
    case Null =>
    case Int(_) =>
    case UInt(_) =>
    case Float(_) =>
    case Double(_) =>
    case Bytes(_) =>
    case Text(_) =>
  }

  /** The order is total and `Equal` holds of identical values only, so equal keys are one map entry. */
  lemma ValueCmpIsLawful()
    ensures Lawful(ValueCmp)
  {
    forall a: Value, b: Value ensures (ValueCmp(a, b) == Equal <==> a == b) && ValueCmp(b, a) == ValueCmp(a, b).Reverse() {
      ValueCmpReverses(a, b);
    }
    forall a: Value, b: Value, c: Value | ValueCmp(a, b) == Less && ValueCmp(b, c) == Less ensures ValueCmp(a, c) == Less {
      ValueCmpTransitive(a, b, c);
    }
  }

  type Key = seq<Value>

  function KeyCmp(a: Key, b: Key): Ordering {
    SeqCmp(a, b, ValueCmp)
  }

  lemma KeyCmpIsLawful()
    ensures Lawful(KeyCmp)
  {
    ValueCmpIsLawful();
    forall a: Key, b: Key ensures (KeyCmp(a, b) == Equal <==> a == b) && KeyCmp(b, a) == KeyCmp(a, b).Reverse() {
      SeqCmpEqual(a, b, ValueCmp);
    }
    forall a: Key, b: Key, c: Key | KeyCmp(a, b) == Less && KeyCmp(b, c) == Less ensures KeyCmp(a, c) == Less {
      SeqCmpTransitive(a, b, c, ValueCmp);
    }
  }

  function KeyLe(a: Key, b: Key): bool {
    KeyCmp(a, b) != Greater
  }

  lemma KeyLeIsTotal()
    ensures TotalOrder(KeyLe)
  {
    KeyCmpIsLawful();
  }

  /**
    * Float arithmetic and the rendering of non-text values: what the platform computes and this model does not define.
    */
  datatype Platform = Platform(
    next32: u32 -> u32,
    next64: u64 -> u64,
    equal: (Value, Value) -> bool,
    compare: (Value, Value) -> Option<Ordering>,
    render: Value -> Str)

  /** A column's type, as its position in the declaration of `ColumnType`. */
  type ColumnType = n: nat | n < 27

  /** The discriminants of `ColumnType`, in declaration order: the byte sent on the wire. */
  function WireCode(c: ColumnType): byte {
    if c < 14 then c else if c < 16 then c + 1 else c + 229
  }

  /** Different column types are different on the wire. */
  lemma WireCodesDiffer(a: ColumnType, b: ColumnType)
    requires WireCode(a) == WireCode(b)
    ensures a == b
  {
  }

  datatype DefaultExpr = DefaultValue(v: Value) | CurrentTimestamp

  datatype Column = Column(
    name: Str,
    table: Str,
    colType: ColumnType,
    columnLength: u32,
    charset: u16,
    flags: u16,
    decimals: byte,
    autoIncrement: bool,
    defaultExpr: Option<DefaultExpr>)

  datatype Row = Row(id: nat, values: seq<Value>)

  /** `columns.iter().position(..)`: the first column of that name, ignoring case; `|columns|` if there is none. */
  function Position(columns: seq<Column>, name: Str): (p: nat)
    ensures p <= |columns|
    ensures p < |columns| ==> SameName(columns[p].name, name)
    ensures forall i :: 0 <= i < p ==> !SameName(columns[i].name, name)
  {
    if columns == [] then 0
    else if SameName(columns[0].name, name) then 0
    else 1 + Position(columns[1..], name)
  }

  lemma {:induction false} PositionIgnoresCase(columns: seq<Column>, a: Str, b: Str)
    requires SameName(a, b)
    ensures Position(columns, a) == Position(columns, b)
  {
    if columns != [] {
      PositionIgnoresCase(columns[1..], a, b);
    }
  }

  /** `row.values.get(pos)` of the named column, `Null` when there is no such column or cell. */
  function Cell(columns: seq<Column>, name: Str, values: seq<Value>): Value {
    var p := Position(columns, name);
    if p < |columns| && p < |values| then values[p] else Null
  }
}
