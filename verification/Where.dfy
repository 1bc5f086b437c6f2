/**
  * WHERE evaluation in `src/engine/executor.rs`: literals, comparisons, and the equality conditions an index can
  * answer.
  */
module Where {
  import opened Prelude
  import opened Order
  import opened Types
  import opened Like

  /** A literal as the code reads it: a number is an Int, else a Double, else text. */
  datatype Literal = Number(v: Value) | Quoted(s: Str) | NullLiteral | OtherLiteral(debug: Str)

  datatype Operator = Eq | NotEq | Gt | GtEq | Lt | LtEq | And | Or | OtherOperator

  datatype Expr =
    | Identifier(name: Str)
    | Constant(lit: Literal)
    | BinaryOp(left: Expr, op: Operator, right: Expr)
    | LikeExpr(negated: bool, subject: Expr, pattern: Expr)
    | IsNull(subject: Expr)
    | IsNotNull(subject: Expr)
    | Between(subject: Expr, negated: bool, low: Expr, high: Expr)
    | InList(subject: Expr, list: seq<Expr>, negated: bool)
    | OtherExpr(debug: Str)

  /** `sql_expr_to_value` on a literal. */
  function LiteralValue(lit: Literal): Value {
    match lit
    case Number(v) => v
    case Quoted(s) => Text(s)
    case NullLiteral => Null
    case OtherLiteral(d) => Text(d)
  }

  /** `eval_const_expr`: the literals an index lookup accepts. */
  function ConstantValue(e: Expr): Option<Value> {
    match e
    case Constant(lit) => if lit.OtherLiteral? then None else Some(LiteralValue(lit))
    case _ => None
  }

  const NULL_TEXT: Str := [78, 85, 76, 76]

  /** `Value::to_string`. */
  function Render(v: Value, platform: Platform): Str {
    match v
    case Null => NULL_TEXT
    case Text(s) => s
    case _ => (platform.render)(v)
  }

  function ValuesEqual(a: Value, b: Value, platform: Platform): bool {
    match (a, b)
    case (Int(x), Int(y)) => x == y
    case (UInt(x), UInt(y)) => x == y
    case (Float(_), Float(_)) => (platform.equal)(a, b)
    case (Double(_), Double(_)) => (platform.equal)(a, b)
    case (Text(x), Text(y)) => x == y
    case (Text(x), Bytes(y)) => x == y
    case (Bytes(x), Text(y)) => x == y
    case (Int(_), Text(y)) => Render(a, platform) == y
    case (Text(x), Int(_)) => x == Render(b, platform)
    case (Int(_), Float(_)) => (platform.equal)(a, b)
    case (Float(_), Int(_)) => (platform.equal)(a, b)
    case (Int(_), Double(_)) => (platform.equal)(a, b)
    case (Double(_), Int(_)) => (platform.equal)(a, b)
    case (Null, _) => false
    case (_, Null) => false
    case _ => Render(a, platform) == Render(b, platform)
  }

  /** `value_cmp`: `None` where the code declines to compare. */
  function CompareValues(a: Value, b: Value, platform: Platform): Option<Ordering> {
    match (a, b)
    case (Int(x), Int(y)) => Some(IntCmp(x, y))
    case (UInt(x), UInt(y)) => Some(IntCmp(x, y))
    case (Float(_), Float(_)) => (platform.compare)(a, b)
    case (Double(_), Double(_)) => (platform.compare)(a, b)
    case (Int(_), Double(_)) => (platform.compare)(a, b)
    case (Double(_), Int(_)) => (platform.compare)(a, b)
    case (Int(_), Float(_)) => (platform.compare)(a, b)
    case (Float(_), Int(_)) => (platform.compare)(a, b)
    case (Text(x), Text(y)) => Some(StrCmp(x, y))
    case (Int(_), Text(y)) => Some(StrCmp(Render(a, platform), y))
    case (Text(x), Int(_)) => Some(StrCmp(x, Render(b, platform)))
    case _ => None
  }

  function AsBool(v: Value): Option<bool> {
    match v
    case Int(n) => Some(n != 0)
    case UInt(n) => Some(n != 0)
    case Text(s) => Some(s != [] && s != [48])
    case _ => None
  }

  function UpperByte(b: byte): byte {
    if 97 <= b <= 122 then b - 32 else b
  }

  function Upper(s: Str): Str {
    seq(|s|, i requires 0 <= i < |s| => UpperByte(s[i]))
  }

  predicate LikeValues(text: Value, pattern: Value) {
    text.Text? && pattern.Text? && Means(Upper(text.t), Effective(Upper(pattern.t)))
  }

  /** `eval_expr`: operands are columns and literals; anything else is an error (`None`). */
  function EvalExpr(e: Expr, columns: seq<Column>, values: seq<Value>): Option<Value> {
    match e
    case Identifier(name) => Some(Cell(columns, name, values))
    case Constant(lit) => Some(LiteralValue(lit))
    case _ => None
  }

  function Connect(l: Value, r: Value, both: bool): Option<bool> {
    if AsBool(l).None? || AsBool(r).None? then None
    else if both then Some(AsBool(l).value && AsBool(r).value)
    else Some(AsBool(l).value || AsBool(r).value)
  }

  function EvalWhere(e: Expr, columns: seq<Column>, values: seq<Value>, platform: Platform): Option<bool> {
    match e
    case BinaryOp(left, op, right) =>
      var lo, ro := EvalExpr(left, columns, values), EvalExpr(right, columns, values);
      if lo.None? || ro.None? then None
      else
        var l, r := lo.value, ro.value;
        var c := CompareValues(l, r, platform);
        (match op
         case Eq => Some(ValuesEqual(l, r, platform))
         case NotEq => Some(!ValuesEqual(l, r, platform))
         case Gt => Some(c == Some(Greater))
         case GtEq => Some(c == Some(Greater) || c == Some(Equal))
         case Lt => Some(c == Some(Less))
         case LtEq => Some(c == Some(Less) || c == Some(Equal))
         case And => Connect(l, r, true)
         case Or => Connect(l, r, false)
         case OtherOperator => None)
    case LikeExpr(negated, subject, pattern) =>
      var s, p := EvalExpr(subject, columns, values), EvalExpr(pattern, columns, values);
      if s.None? || p.None? then None else Some(LikeValues(s.value, p.value) != negated)
    case IsNull(subject) =>
      var s := EvalExpr(subject, columns, values);
      if s.None? then None else Some(s.value == Null)
    case IsNotNull(subject) =>
      var s := EvalExpr(subject, columns, values);
      if s.None? then None else Some(s.value != Null)
    case Between(subject, negated, low, high) =>
      var s, l, h := EvalExpr(subject, columns, values), EvalExpr(low, columns, values), EvalExpr(high, columns, values);
      if s.None? || l.None? || h.None? then None
      else
        var a, b := CompareValues(s.value, l.value, platform), CompareValues(s.value, h.value, platform);
        Some((a.Some? && b.Some? && a.value != Less && b.value != Greater) != negated)
    case InList(subject, list, negated) =>
      var s := EvalExpr(subject, columns, values);
      if s.None? then None
      else
        var found := exists i | 0 <= i < |list| ::
                       var v := EvalExpr(list[i], columns, values);
                       v.Some? && ValuesEqual(s.value, v.value, platform);
        Some(found != negated)
    case _ =>
      var v := EvalExpr(e, columns, values);
      if v.None? then None else Some(AsBool(v.value) == Some(true))
  }

  /** The test a row must pass: an evaluation error counts as "no". */
  predicate Selected(selection: Option<Expr>, columns: seq<Column>, values: seq<Value>, platform: Platform) {
    selection.None? || EvalWhere(selection.value, columns, values, platform) == Some(true)
  }

  /** `extract_eq_conditions`: column-equals-literal conditions joined by AND, the first of each column winning. */
  function EqConditions(e: Expr, acc: map<Str, Value>): map<Str, Value> {
    match e
    case BinaryOp(left, And, right) => EqConditions(right, EqConditions(left, acc))
    case BinaryOp(left, Eq, right) =>
      if left.Identifier? && ConstantValue(right).Some? then OrInsert(acc, left.name, ConstantValue(right).value)
      else if right.Identifier? && ConstantValue(left).Some? then OrInsert(acc, right.name, ConstantValue(left).value)
      else acc
    case _ => acc
  }

  function OrInsert(acc: map<Str, Value>, name: Str, v: Value): map<Str, Value> {
    if Lower(name) in acc then acc else acc[Lower(name) := v]
  }

  /** A column or a literal: all that AND and OR can evaluate. */
  predicate IsPlain(e: Expr) {
    e.Identifier? || e.Constant?
  }

  predicate HasTruth(e: Expr, columns: seq<Column>, values: seq<Value>) {
    IsPlain(e) && AsBool(EvalExpr(e, columns, values).value).Some?
  }

  /** AND selects what both sides select exactly when both sides are plain, or not both select the row. */
  lemma AndExact(l: Expr, r: Expr, columns: seq<Column>, values: seq<Value>, platform: Platform)
    ensures var a, b := Selected(Some(l), columns, values, platform), Selected(Some(r), columns, values, platform);
            (Selected(Some(BinaryOp(l, And, r)), columns, values, platform) <==> a && b)
            <==> (IsPlain(l) && IsPlain(r)) || !(a && b)
  {
  }

  /**
    * OR selects what either side selects exactly when both sides are plain with a truth value, so neither NULL, or
    * neither selects the row.
    */
  lemma OrExact(l: Expr, r: Expr, columns: seq<Column>, values: seq<Value>, platform: Platform)
    ensures var a, b := Selected(Some(l), columns, values, platform), Selected(Some(r), columns, values, platform);
            (Selected(Some(BinaryOp(l, Or, r)), columns, values, platform) <==> a || b)
            <==> (HasTruth(l, columns, values) && HasTruth(r, columns, values)) || !(a || b)
  {
  }

  /** What the condition says: connectives over conditions of any depth, everything else as it is evaluated. */
  predicate Says(e: Expr, columns: seq<Column>, values: seq<Value>, platform: Platform) {
    if e.BinaryOp? && e.op == And then Says(e.left, columns, values, platform) && Says(e.right, columns, values, platform)
    else if e.BinaryOp? && e.op == Or then Says(e.left, columns, values, platform) || Says(e.right, columns, values, platform)
    else Selected(Some(e), columns, values, platform)
  }

  /**
    * No row is selected against what the condition says; a row that it accepts is lost exactly at a connective that
    * cannot evaluate its sides.
    */
  lemma SelectedAgainstSaid(e: Expr, columns: seq<Column>, values: seq<Value>, platform: Platform)
    ensures Selected(Some(e), columns, values, platform) ==> Says(e, columns, values, platform)
    ensures Says(e, columns, values, platform) && !Selected(Some(e), columns, values, platform)
            <==> Says(e, columns, values, platform) && e.BinaryOp?
                 && ((e.op == And && !(IsPlain(e.left) && IsPlain(e.right)))
                     || (e.op == Or && !(HasTruth(e.left, columns, values) && HasTruth(e.right, columns, values))))
  {
  }

  lemma OperandsHaveNoConditions(e: Expr, acc: map<Str, Value>)
    requires e.Identifier? || e.Constant?
    ensures EqConditions(e, acc) == acc
  {
  }

  /**
    * A row selected by a condition that yields index keys was selected by a single comparison of a column with a
    * literal.
    */
  lemma SelectedConditionIsAtom(e: Expr, columns: seq<Column>, values: seq<Value>, platform: Platform)
    requires EqConditions(e, map[]) != map[]
    requires Selected(Some(e), columns, values, platform)
    ensures e.BinaryOp? && e.op == Eq
    ensures exists name, v :: EqConditions(e, map[]) == map[Lower(name) := v] && IsAtom(e, name, v)
  {
    assert e.BinaryOp?;
    if e.op == And {
      OperandsHaveNoConditions(e.left, map[]);
      assert false;
    }
    if e.left.Identifier? && ConstantValue(e.right).Some? {
      assert IsAtom(e, e.left.name, ConstantValue(e.right).value);
    } else {
      assert IsAtom(e, e.right.name, ConstantValue(e.left).value);
    }
  }

  /** `e` reads `name = v` or `v = name`. */
  predicate IsAtom(e: Expr, name: Str, v: Value) {
    && e.BinaryOp? && e.op == Eq
    && (|| (e.left == Identifier(name) && ConstantValue(e.right) == Some(v))
        || (e.right == Identifier(name) && ConstantValue(e.left) == Some(v)))
  }
}
