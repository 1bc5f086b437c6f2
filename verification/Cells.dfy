/**
  * What ends up in each cell of an inserted or updated row, and which comparisons of a cell follow the order of values.
  */
module Cells {
  import opened Prelude
  import opened Order
  import opened Types
  import opened Catalog
  import opened Where
  import opened Like
  import opened Engine
  import opened Timestamp

  // ---- Names of columns ---------------------------------------------------------------------------------

  /** `p` is the first column of that name, ignoring case. */
  predicate Names(columns: seq<Column>, name: Str, p: nat) {
    && p < |columns| && SameName(columns[p].name, name)
    && forall i :: 0 <= i < p ==> !SameName(columns[i].name, name)
  }

  predicate Unknown(columns: seq<Column>, name: Str) {
    forall i :: 0 <= i < |columns| ==> !SameName(columns[i].name, name)
  }

  /** One letter, whatever its case, or one and the same other byte. */
  predicate SameLetter(a: byte, b: byte) {
    a == b || (65 <= a <= 90 && b == a + 32) || (65 <= b <= 90 && a == b + 32)
  }

  predicate SameLetters(a: Str, b: Str) {
    |a| == |b| && forall i :: 0 <= i < |a| ==> SameLetter(a[i], b[i])
  }

  /** Names agree exactly when they are the same letters, and so do texts for LIKE. */
  lemma SameNameIsSameLetters(a: Str, b: Str)
    ensures SameName(a, b) <==> SameLetters(a, b)
    ensures Upper(a) == Upper(b) <==> SameLetters(a, b)
  {
    if SameName(a, b) {
      forall i | 0 <= i < |a| ensures SameLetter(a[i], b[i]) {
        assert Lower(a)[i] == Lower(b)[i];
      }
    }
    if Upper(a) == Upper(b) {
      forall i | 0 <= i < |a| ensures SameLetter(a[i], b[i]) {
        assert Upper(a)[i] == Upper(b)[i];
      }
    }
    if SameLetters(a, b) {
      assert forall i :: 0 <= i < |a| ==> LowerByte(a[i]) == LowerByte(b[i]) && UpperByte(a[i]) == UpperByte(b[i]);
    }
  }

  /** A cell is found at the first column of its name; there is NULL where the name or the value is missing. */
  lemma CellIsNamed(columns: seq<Column>, name: Str, values: seq<Value>)
    ensures forall p: nat :: Names(columns, name, p) ==> Cell(columns, name, values) == if p < |values| then values[p] else Null
    ensures Unknown(columns, name) ==> Cell(columns, name, values) == Null
  {
    assert Position(columns, name) < |columns| ==> SameName(columns[Position(columns, name)].name, name);
  }

  // ---- INSERT with column names ---------------------------------------------------------------------

  /** The `i`-th of the first `k` names gives its value to column `p`. */
  predicate Gives(columns: seq<Column>, names: seq<Str>, values: seq<Value>, k: nat, i: nat, p: nat) {
    i < k <= |names| && i < |values| && Position(columns, names[i]) == p
  }

  /** A row is refused exactly for a name that has a value and no column. */
  lemma {:induction false} RefusedForUnknownColumn(columns: seq<Column>, names: seq<Str>, values: seq<Value>, k: nat)
    requires k <= |names|
    ensures MapNames(columns, names, values, k) == None <==> exists i: nat :: Gives(columns, names, values, k, i, |columns|)
  {
    if k > 0 {
      RefusedForUnknownColumn(columns, names, values, k - 1);
      forall i: nat
        ensures Gives(columns, names, values, k, i, |columns|)
           <==> Gives(columns, names, values, k - 1, i, |columns|) || (i == k - 1 && i < |values| && Position(columns, names[i]) == |columns|)
      {
      }
      if k - 1 < |values| && Position(columns, names[k - 1]) == |columns| {
        assert Gives(columns, names, values, k, k - 1, |columns|);
      }
    }
  }

  /** A cell that no name is for is NULL. */
  lemma {:induction false} UnnamedCellIsNull(columns: seq<Column>, names: seq<Str>, values: seq<Value>, k: nat, p: nat)
    requires k <= |names| && p < |columns| && MapNames(columns, names, values, k).Some?
    requires forall i: nat :: !Gives(columns, names, values, k, i, p)
    ensures MapNames(columns, names, values, k).value[p] == Null
  {
    if k > 0 {
      var m := k - 1;
      forall i: nat ensures !Gives(columns, names, values, m, i, p) {
        assert !Gives(columns, names, values, k, i, p);
      }
      UnnamedCellIsNull(columns, names, values, k - 1, p);
      assert !Gives(columns, names, values, k, k - 1, p);
    }
  }

  /** Of several names for a cell the last one counts. */
  lemma {:induction false} LastNameCounts(columns: seq<Column>, names: seq<Str>, values: seq<Value>, k: nat, i: nat,
      p: nat)
    requires k <= |names| && p < |columns| && MapNames(columns, names, values, k).Some?
    requires Gives(columns, names, values, k, i, p) && forall j: nat :: i < j ==> !Gives(columns, names, values, k, j, p)
    ensures MapNames(columns, names, values, k).value[p] == values[i]
  {
    if i < k - 1 {
      var m := k - 1;
      forall j: nat | i < j ensures !Gives(columns, names, values, m, j, p) {
        assert !Gives(columns, names, values, k, j, p);
      }
      LastNameCounts(columns, names, values, k - 1, i, p);
      assert !Gives(columns, names, values, k, k - 1, p);
    }
  }

  // ---- AUTO_INCREMENT and defaults ----------------------------------------------------------------------

  /** How many of the first `k` cells are NULL in an AUTO_INCREMENT column. */
  function AutoCells(columns: seq<Column>, values: seq<Value>, k: nat): nat
    requires k <= |columns| <= |values|
  {
    if k == 0 then 0 else AutoCells(columns, values, k - 1) + if columns[k - 1].autoIncrement && values[k - 1] == Null then 1 else 0
  }

  /** The cell that INSERT stores: what was given, the next number of the table's sequence, the default, or NULL. */
  ghost function FilledCell(first: nat, columns: seq<Column>, values: seq<Value>, now: u64, i: nat): Value
    requires i < |columns| <= |values|
  {
    if values[i] != Null then values[i]
    else if columns[i].autoIncrement then Int(AsI64(first + AutoCells(columns, values, i)))
    else
      match columns[i].defaultExpr
      case Some(DefaultValue(v)) => v
      case Some(CurrentTimestamp) => Text(Show(StampOf(now)))
      case None => Null
  }

  /** The number of a sequence as the signed 64-bit integer that is congruent to it. */
  lemma AsI64IsCast(n: nat)
    ensures (AsI64(n) - n) % 0x1_0000_0000_0000_0000 == 0
    ensures n < 0x8000_0000_0000_0000 ==> AsI64(n) == n
  {
    var q := n / 0x1_0000_0000_0000_0000;
    assert n == 0x1_0000_0000_0000_0000 * q + n % 0x1_0000_0000_0000_0000;
    assert AsI64(n) - n == 0x1_0000_0000_0000_0000 * (-q) || AsI64(n) - n == 0x1_0000_0000_0000_0000 * (-q - 1);
  }

  /**
    * NULLs become consecutive sequence numbers or defaults, other cells stay, and the sequence moves on by the numbers
    * used.
    */
  lemma {:induction false} FilledCells(c: Definitions, table: Str, columns: seq<Column>, values: seq<Value>,
      last: nat, now: u64, k: nat)
    requires k <= |columns| <= |values|
    ensures var f := FillRow(c, table, columns, values, last, now, k);
            && (forall i :: 0 <= i < k ==> f.values[i] == FilledCell(SequenceOf(c, table), columns, values, now, i))
            && (forall i :: k <= i < |values| ==> f.values[i] == values[i])
            && SequenceOf(f.defs, table) == SequenceOf(c, table) + AutoCells(columns, values, k)
            && f.last == if AutoCells(columns, values, k) == 0 then last else SequenceOf(f.defs, table) - 1
  {
    if k > 0 {
      FilledCells(c, table, columns, values, last, now, k - 1);
    }
  }

  /** How many numbers the first `n` rows take. */
  function AutoTotal(columns: seq<Column>, rows: seq<seq<Value>>, n: nat): nat
    requires n <= |rows| && FullArity(columns, rows)
  {
    if n == 0 then 0 else AutoTotal(columns, rows, n - 1) + AutoCells(columns, rows[n - 1], |columns|)
  }

  lemma {:induction false} AutoTotalPrefix(columns: seq<Column>, rows: seq<seq<Value>>, n: nat, m: nat)
    requires n <= m <= |rows| && FullArity(columns, rows)
    ensures AutoTotal(columns, rows[..m], n) == AutoTotal(columns, rows, n)
  {
    if n > 0 {
      AutoTotalPrefix(columns, rows, n - 1, m);
    }
  }

  /** `filled` is what INSERT makes of `given` when the sequence stands at `first`. */
  ghost predicate IsFilled(filled: seq<Value>, given: seq<Value>, first: nat, columns: seq<Column>, now: u64) {
    && |columns| <= |given| == |filled|
    && (forall i :: 0 <= i < |columns| ==> filled[i] == FilledCell(first, columns, given, now, i))
    && (forall i :: |columns| <= i < |given| ==> filled[i] == given[i])
  }

  lemma OneRowFilled(c: Definitions, table: Str, columns: seq<Column>, given: seq<Value>, last: nat, now: u64)
    requires |columns| <= |given|
    ensures IsFilled(FillRow(c, table, columns, given, last, now, |columns|).values, given, SequenceOf(c, table), columns, now)
  {
    FilledCells(c, table, columns, given, last, now, |columns|);
  }

  /** Row after row: the numbers go on where the row before stopped, so no two cells of an INSERT share one. */
  lemma {:induction false} FilledRowCells(c: Definitions, table: Str, columns: seq<Column>, rows: seq<seq<Value>>,
      now: u64, r: nat)
    requires FullArity(columns, rows) && r < |rows|
    ensures IsFilled(FillRows(c, table, columns, rows, now).rows[r].values, rows[r], SequenceOf(c, table) + AutoTotal(columns, rows, r), columns, now)
  {
    var n := |rows| - 1;
    var init := FillRows(c, table, columns, rows[..n], now);
    if r == n {
      SequenceAfter(c, table, columns, rows[..n], now);
      AutoTotalPrefix(columns, rows, n, n);
      OneRowFilled(init.defs, table, columns, rows[n], init.last, now);
    } else {
      FilledRowCells(c, table, columns, rows[..n], now, r);
      AutoTotalPrefix(columns, rows, r, n);
    }
  }

  /** The sequence has moved on by all numbers used. */
  lemma {:induction false} SequenceAfter(c: Definitions, table: Str, columns: seq<Column>, rows: seq<seq<Value>>,
      now: u64)
    requires FullArity(columns, rows)
    ensures SequenceOf(FillRows(c, table, columns, rows, now).defs, table) == SequenceOf(c, table) + AutoTotal(columns, rows, |rows|)
  {
    if rows != [] {
      var n := |rows| - 1;
      var init := FillRows(c, table, columns, rows[..n], now);
      SequenceAfter(c, table, columns, rows[..n], now);
      AutoTotalPrefix(columns, rows, n, n);
      FilledCells(init.defs, table, columns, rows[n], init.last, now, |columns|);
    }
  }

  /** The last number drawn is the one reported, 0 if there was none. */
  lemma {:induction false} LastNumber(c: Definitions, table: Str, columns: seq<Column>, rows: seq<seq<Value>>, now: u64)
    requires FullArity(columns, rows)
    ensures FillRows(c, table, columns, rows, now).last
         == if AutoTotal(columns, rows, |rows|) == 0 then 0 else SequenceOf(c, table) + AutoTotal(columns, rows, |rows|) - 1
  {
    if rows != [] {
      var n := |rows| - 1;
      var init := FillRows(c, table, columns, rows[..n], now);
      LastNumber(c, table, columns, rows[..n], now);
      SequenceAfter(c, table, columns, rows[..n], now);
      AutoTotalPrefix(columns, rows, n, n);
      FilledCells(init.defs, table, columns, rows[n], init.last, now, |columns|);
    }
  }

  // ---- UPDATE ---------------------------------------------------------------------------------------------

  /** A cell that no assignment is for keeps its value. */
  lemma {:induction false} UnassignedCellStays(values: seq<Value>, targets: seq<Target>, i: nat)
    requires i < |values| && forall k :: 0 <= k < |targets| ==> targets[k].index != i
    ensures Assigned(values, targets)[i] == values[i]
  {
    if targets != [] {
      UnassignedCellStays(values, targets[..|targets| - 1], i);
    }
  }

  /** Of several assignments to a cell the last one counts. */
  lemma {:induction false} LastAssignmentCounts(values: seq<Value>, targets: seq<Target>, k: nat)
    requires k < |targets| && targets[k].index < |values|
    requires forall j :: k < j < |targets| ==> targets[j].index != targets[k].index
    ensures Assigned(values, targets)[targets[k].index] == targets[k].v
  {
    if k < |targets| - 1 {
      LastAssignmentCounts(values, targets[..|targets| - 1], k);
    }
  }

  /** Why an assignment fails, if it does. */
  function FailureOf(columns: seq<Column>, a: Assignment): Option<Error> {
    match a
    case SetTuple => Some(TupleAssignment)
    case Set(name, _) => if Unknown(columns, name) then Some(UnknownColumn) else None
  }

  /** Each assignment has its column, or the first that fails is the error. */
  ghost predicate Resolved(columns: seq<Column>, assignments: seq<Assignment>, r: Result<seq<Target>, Error>) {
    match r
    case Ok(targets) =>
      && |targets| == |assignments|
      && (forall k :: 0 <= k < |assignments| ==>
                        assignments[k].Set? && Names(columns, assignments[k].column, targets[k].index) && targets[k].v == assignments[k].v)
    case Err(x) =>
      exists k :: 0 <= k < |assignments| && FailureOf(columns, assignments[k]) == Some(x)
                  && forall j :: 0 <= j < k ==> FailureOf(columns, assignments[j]) == None
  }

  /**
    * An assignment writes the first column of its name; a tuple or an unknown name is an error, the first one counting.
    */
  lemma {:induction false} TargetsAreNamed(columns: seq<Column>, assignments: seq<Assignment>)
    ensures Resolved(columns, assignments, Targets(columns, assignments))
  {
    if assignments != [] {
      var n := |assignments| - 1;
      var init := assignments[..n];
      TargetsAreNamed(columns, init);
      match Targets(columns, init) {
        case Err(x) =>
          var k :| 0 <= k < n && FailureOf(columns, init[k]) == Some(x) && forall j :: 0 <= j < k ==> FailureOf(columns, init[j]) == None;
          assert FailureOf(columns, assignments[k]) == Some(x);
          assert forall j :: 0 <= j < k ==> assignments[j] == init[j];
        case Ok(targets) =>
          forall j | 0 <= j < n ensures FailureOf(columns, assignments[j]) == None {
            assert init[j] == assignments[j];
            assert Names(columns, init[j].column, targets[j].index);
          }
          assert Targets(columns, assignments).Err? ==> FailureOf(columns, assignments[n]) == Some(Targets(columns, assignments).error);
      }
    }
  }

  /** The `k`-th assignment is for column `p`. */
  predicate Assigns(columns: seq<Column>, assignments: seq<Assignment>, k: nat, p: nat) {
    k < |assignments| && assignments[k].Set? && Names(columns, assignments[k].column, p)
  }

  /** The cell of column `p` goes from `was` to `is`: the last assignment for it counts. */
  ghost predicate CellAssigned(columns: seq<Column>, assignments: seq<Assignment>, p: nat, was: Value, becomes: Value) {
    && ((forall k: nat :: !Assigns(columns, assignments, k, p)) ==> becomes == was)
    && (forall k: nat :: Assigns(columns, assignments, k, p) && (forall j: nat :: k < j ==> !Assigns(columns, assignments, j, p))
                         ==> becomes == assignments[k].v)
  }

  lemma CellsAssigned(columns: seq<Column>, assignments: seq<Assignment>, targets: seq<Target>, values: seq<Value>,
      p: nat)
    requires Resolved(columns, assignments, Ok(targets)) && p < |values|
    ensures CellAssigned(columns, assignments, p, values[p], Assigned(values, targets)[p])
  {
    forall k: nat | k < |targets| ensures Assigns(columns, assignments, k, p) <==> targets[k].index == p {
      OneColumnNamed(columns, assignments[k].column, targets[k].index, p);
    }
    if forall k: nat :: !Assigns(columns, assignments, k, p) {
      UnassignedCellStays(values, targets, p);
    }
    forall k: nat | Assigns(columns, assignments, k, p) && forall j: nat :: k < j ==> !Assigns(columns, assignments, j, p)
      ensures Assigned(values, targets)[p] == assignments[k].v
    {
      LastAssignmentCounts(values, targets, k);
    }
  }

  lemma OneColumnNamed(columns: seq<Column>, name: Str, p: nat, q: nat)
    requires Names(columns, name, p)
    ensures Names(columns, name, q) <==> p == q
  {
  }

  // ---- Comparisons ------------------------------------------------------------------------------------------

  predicate OneKind(a: Value, b: Value) {
    (a.Int? && b.Int?) || (a.UInt? && b.UInt?) || (a.Text? && b.Text?)
  }

  predicate Holds(op: Operator, o: Ordering) {
    match op
    case Eq => o == Equal
    case NotEq => o != Equal
    case Gt => o == Greater
    case GtEq => o != Less
    case Lt => o == Less
    case LtEq => o != Greater
    case _ => false
  }

  /** Between values of one kind, the comparisons of WHERE are those of the order that B-tree indexes use. */
  lemma ComparisonsFollowOrder(name: Str, op: Operator, lit: Literal, columns: seq<Column>, values: seq<Value>,
      platform: Platform)
    requires op != And && op != Or && op != OtherOperator
    requires OneKind(Cell(columns, name, values), LiteralValue(lit))
    ensures EvalWhere(BinaryOp(Identifier(name), op, Constant(lit)), columns, values, platform)
         == Some(Holds(op, ValueCmp(Cell(columns, name, values), LiteralValue(lit))))
    ensures EvalWhere(BinaryOp(Constant(lit), op, Identifier(name)), columns, values, platform)
         == Some(Holds(op, ValueCmp(LiteralValue(lit), Cell(columns, name, values))))
  {
    StrCmpIsLawful();
  }

  /** NULL satisfies IS NULL and, beside a literal, `<>`, and no other test; every other cell satisfies IS NOT NULL. */
  lemma NullTests(name: Str, op: Operator, lit: Literal, columns: seq<Column>, values: seq<Value>, platform: Platform)
    ensures Selected(Some(IsNull(Identifier(name))), columns, values, platform) <==> Cell(columns, name, values) == Null
    ensures Selected(Some(IsNotNull(Identifier(name))), columns, values, platform) <==> Cell(columns, name, values) != Null
    ensures Cell(columns, name, values) == Null ==>
              (Selected(Some(BinaryOp(Identifier(name), op, Constant(lit))), columns, values, platform) <==> op == NotEq)
    ensures Cell(columns, name, values) == Null ==> !Selected(Some(Identifier(name)), columns, values, platform)
  {
  }

  /** A number beside a text is compared as the text it is written as, on either side. */
  lemma NumbersCompareAsTexts(name: Str, op: Operator, lit: Literal, columns: seq<Column>, values: seq<Value>, platform: Platform)
    requires op != And && op != Or && op != OtherOperator
    ensures var cell, v := Cell(columns, name, values), LiteralValue(lit);
            && (cell.Int? && v.Text? ==>
                  EvalWhere(BinaryOp(Identifier(name), op, Constant(lit)), columns, values, platform)
                  == Some(Holds(op, StrCmp((platform.render)(cell), v.t))))
            && (cell.Text? && v.Int? ==>
                  EvalWhere(BinaryOp(Identifier(name), op, Constant(lit)), columns, values, platform)
                  == Some(Holds(op, StrCmp(cell.t, (platform.render)(v)))))
  {
    StrCmpIsLawful();
  }

  /** A bare column selects the rows whose cell is an integer other than 0 or a text other than '' and '0'. */
  lemma TruthOfColumn(name: Str, columns: seq<Column>, values: seq<Value>, platform: Platform)
    ensures var cell := Cell(columns, name, values);
            Selected(Some(Identifier(name)), columns, values, platform)
            <==> (cell.Int? && cell.i != 0) || (cell.UInt? && cell.u != 0) || (cell.Text? && cell.t != [] && cell.t != [48])
  {
  }

  /** BETWEEN is the two comparisons with its bounds; its negation is their negation. */
  lemma BetweenIsBothBounds(name: Str, negated: bool, low: Literal, high: Literal, columns: seq<Column>,
      values: seq<Value>, platform: Platform)
    requires OneKind(Cell(columns, name, values), LiteralValue(low)) && OneKind(Cell(columns, name, values), LiteralValue(high))
    ensures var cell := Cell(columns, name, values);
            EvalWhere(Between(Identifier(name), negated, Constant(low), Constant(high)), columns, values, platform)
            == Some((ValueCmp(LiteralValue(low), cell) != Greater && ValueCmp(cell, LiteralValue(high)) != Greater) != negated)
  {
    StrCmpIsLawful();
    ValueCmpReverses(LiteralValue(low), Cell(columns, name, values));
  }

  /** IN holds when some item of the list would be equal, NOT IN when none would. */
  lemma InIsAnyEqual(subject: Expr, list: seq<Expr>, negated: bool, columns: seq<Column>, values: seq<Value>,
      platform: Platform)
    requires EvalExpr(subject, columns, values).Some?
    ensures EvalWhere(InList(subject, list, negated), columns, values, platform)
         == Some((exists i :: 0 <= i < |list| && EvalWhere(BinaryOp(subject, Eq, list[i]), columns, values, platform) == Some(true)) != negated)
  {
    forall i | 0 <= i < |list|
      ensures EvalWhere(BinaryOp(subject, Eq, list[i]), columns, values, platform) == Some(true)
         <==> var v := EvalExpr(list[i], columns, values); v.Some? && ValuesEqual(EvalExpr(subject, columns, values).value, v.value, platform)
    {
    }
  }

  /**
    * LIKE on text means what the pattern means, ignoring case, for patterns that do not end in two percent signs; NOT
    * LIKE is its negation.
    */
  lemma LikeIgnoresCase(name: Str, pattern: Str, negated: bool, columns: seq<Column>, values: seq<Value>,
      platform: Platform)
    requires Cell(columns, name, values).Text? && !EndsDouble(pattern)
    ensures EvalWhere(LikeExpr(negated, Identifier(name), Constant(Quoted(pattern))), columns, values, platform)
         == Some(Means(Upper(Cell(columns, name, values).t), Upper(pattern)) != negated)
  {
    assert !EndsDouble(Upper(pattern));
  }
}
