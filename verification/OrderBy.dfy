/**
  * ORDER BY, OFFSET and LIMIT in `src/engine/executor.rs`: stable sorts from the last key to the first, then a slice.
  */
module OrderBy {
  import opened Prelude
  import opened Order
  import opened Types
  import opened Where

  datatype SortItem = ByColumn(name: Str, ascending: bool) | ByOther

  function CellAt(index: nat, row: Row): Value {
    if index < |row.values| then row.values[index] else Null
  }

  /** How `sort_rows` compares two cells: what `value_cmp` declines to compare counts as equal. */
  function CompareCells(a: Value, b: Value, ascending: bool, platform: Platform): Ordering {
    match CompareValues(a, b, platform)
    case Some(Less) => if ascending then Less else Greater
    case Some(Greater) => if ascending then Greater else Less
    case _ => Equal
  }

  predicate Recognised(item: SortItem, columns: seq<Column>) {
    item.ByColumn? && Position(columns, item.name) < |columns|
  }

  /** The comparison by one ORDER BY item; an item that names no column leaves all rows equal. */
  function CompareBy(item: SortItem, columns: seq<Column>, platform: Platform): (Row, Row) -> Ordering {
    (a: Row, b: Row) =>
      if !Recognised(item, columns) then Equal
      else
        var p := Position(columns, item.name);
        CompareCells(CellAt(p, a), CellAt(p, b), item.ascending, platform)
  }

  /** The comparison by all items, the first that tells the rows apart deciding. */
  function CompareLex(items: seq<SortItem>, columns: seq<Column>, platform: Platform, a: Row, b: Row): Ordering {
    if items == [] then Equal
    else
      match CompareBy(items[0], columns, platform)(a, b)
      case Less => Less
      case Greater => Greater
      case Equal => CompareLex(items[1..], columns, platform, a, b)
  }

  /** What a sort demands of its comparison on the rows it is given. */
  ghost predicate TotalPreorder(rows: seq<Row>, cmp: (Row, Row) -> Ordering) {
    && (forall a, b :: a in rows && b in rows ==> cmp(b, a) == cmp(a, b).Reverse())
    && (forall a, b, c :: a in rows && b in rows && c in rows && cmp(a, b) != Greater && cmp(b, c) != Greater ==> cmp(a, c) != Greater)
  }

  ghost predicate IsPermutation(perm: seq<nat>, n: nat) {
    && |perm| == n && NoDup(perm)
    && (forall i :: 0 <= i < n ==> perm[i] < n)
    && (forall x: nat :: x < n ==> x in perm)
  }

  ghost predicate Permuted(rows: seq<Row>, perm: seq<nat>, sorted: seq<Row>) {
    && IsPermutation(perm, |rows|)
    && |sorted| == |rows|
    && forall i :: 0 <= i < |rows| ==> sorted[i] == rows[perm[i]]
  }

  /** The rows named by `order` ascend, ties by position. */
  ghost predicate Ascends(rows: seq<Row>, cmp: (Row, Row) -> Ordering, order: seq<nat>)
    requires forall i :: 0 <= i < |order| ==> order[i] < |rows|
  {
    forall i, j :: 0 <= i < j < |order| ==>
                     cmp(rows[order[i]], rows[order[j]]) == Less || (cmp(rows[order[i]], rows[order[j]]) == Equal && order[i] < order[j])
  }

  /** `sorted` is a permutation of `rows` that ascends, ties by position. */
  ghost predicate StablySorted(rows: seq<Row>, cmp: (Row, Row) -> Ordering, sorted: seq<Row>) {
    exists perm: seq<nat> :: Permuted(rows, perm, sorted) && Ascends(rows, cmp, perm)
  }

  lemma InsertAscends(rows: seq<Row>, cmp: (Row, Row) -> Ordering, order: seq<nat>, at: nat)
    requires TotalPreorder(rows, cmp) && |order| < |rows| && IsPermutation(order, |order|) && Ascends(rows, cmp, order)
    requires at <= |order|
    requires forall m :: at <= m < |order| ==> cmp(rows[order[m]], rows[|order|]) == Greater
    requires at > 0 ==> cmp(rows[order[at - 1]], rows[|order|]) != Greater
    ensures var longer := order[..at] + [|order|] + order[at..];
            IsPermutation(longer, |order| + 1) && Ascends(rows, cmp, longer)
  {
    var k := |order|;
    var longer := order[..at] + [k] + order[at..];
    forall m | 0 <= m < at ensures cmp(rows[order[m]], rows[k]) != Greater {
      assert rows[order[m]] in rows && rows[order[at - 1]] in rows && rows[k] in rows;
    }
    forall m | at <= m < k ensures cmp(rows[k], rows[order[m]]) == Less {
      assert rows[order[m]] in rows && rows[k] in rows;
    }
    InsertPermutes(order, at);
    forall i, j | 0 <= i < j < |longer|
      ensures cmp(rows[longer[i]], rows[longer[j]]) == Less || (cmp(rows[longer[i]], rows[longer[j]]) == Equal && longer[i] < longer[j])
    {
      if i == at {
        assert longer[j] == order[j - 1];
      } else if j == at {
        assert longer[i] == order[i];
      } else {
        assert longer[i] == order[if i < at then i else i - 1] && longer[j] == order[if j < at then j else j - 1];
      }
    }
  }

  lemma InsertedAt<T>(xs: seq<T>, x: T, at: nat, i: nat)
    requires at <= |xs| && i <= |xs|
    ensures (xs[..at] + [x] + xs[at..])[i] == if i < at then xs[i] else if i == at then x else xs[i - 1]
  {
  }

  lemma InsertPermutes(order: seq<nat>, at: nat)
    requires IsPermutation(order, |order|) && at <= |order|
    ensures IsPermutation(order[..at] + [|order|] + order[at..], |order| + 1)
  {
    var k := |order|;
    var longer := order[..at] + [k] + order[at..];
    forall i | 0 <= i < |longer| ensures longer[i] == if i < at then order[i] else if i == at then k else order[i - 1] {
      InsertedAt(order, k, at, i);
    }
    forall x: nat | x < k ensures x in longer {
      assert x in order;
      var m :| 0 <= m < k && order[m] == x;
      assert longer[if m < at then m else m + 1] == x;
    }
    assert longer[at] == k;
  }

  ghost function Identity(n: nat): (s: seq<nat>)
    ensures IsPermutation(s, n)
    ensures forall i :: 0 <= i < n ==> s[i] == i
  {
    if n == 0 then []
    else
      var init := Identity(n - 1);
      var s := init + [n - 1];
      assert s[n - 1] == n - 1;
      assert forall x :: x in s <==> x in init || x == n - 1;
      s
  }

  /** Some permutation of the rows. */
  ghost predicate Rearranged(rows: seq<Row>, sorted: seq<Row>) {
    exists perm: seq<nat> :: Permuted(rows, perm, sorted)
  }

  /** `sort_by`: a stable sort; for a comparison that is no order, some permutation. */
  method StableSort(rows: seq<Row>, cmp: (Row, Row) -> Ordering) returns (sorted: seq<Row>)
    ensures Rearranged(rows, sorted)
    ensures TotalPreorder(rows, cmp) ==> StablySorted(rows, cmp, sorted)
  {
    var order: seq<nat> := [];
    for k := 0 to |rows|
      invariant IsPermutation(order, k)
      invariant TotalPreorder(rows, cmp) ==> Ascends(rows, cmp, order)
    {
      var at := k;
      while at > 0 && cmp(rows[order[at - 1]], rows[k]) == Greater
        invariant 0 <= at <= k
        invariant forall m :: at <= m < k ==> cmp(rows[order[m]], rows[k]) == Greater
      {
        at := at - 1;
      }
      if TotalPreorder(rows, cmp) {
        InsertAscends(rows, cmp, order, at);
      }
      InsertPermutes(order, at);
      order := order[..at] + [k] + order[at..];
    }
    sorted := seq(|rows|, i requires 0 <= i < |rows| => rows[order[i]]);
    assert Permuted(rows, order, sorted);
  }

  /** Row `i` of the input comes before row `j`: by the items, and by position where they tie. */
  ghost predicate Before(rows: seq<Row>, items: seq<SortItem>, columns: seq<Column>, platform: Platform, i: nat, j: nat)
    requires i < |rows| && j < |rows|
  {
    var c := CompareLex(items, columns, platform, rows[i], rows[j]);
    c == Less || (c == Equal && i < j)
  }

  ghost predicate InOrder(rows: seq<Row>, items: seq<SortItem>, columns: seq<Column>, platform: Platform,
      perm: seq<nat>)
    requires IsPermutation(perm, |rows|)
  {
    forall i, j :: 0 <= i < j < |perm| ==> Before(rows, items, columns, platform, perm[i], perm[j])
  }

  /** `sorted` is a permutation of `rows` in the order of all items, ties by position. */
  ghost predicate SortedBy(rows: seq<Row>, items: seq<SortItem>, columns: seq<Column>, platform: Platform,
      sorted: seq<Row>) {
    exists perm: seq<nat> :: Permuted(rows, perm, sorted) && InOrder(rows, items, columns, platform, perm)
  }

  ghost predicate Sortable(rows: seq<Row>, items: seq<SortItem>, columns: seq<Column>, platform: Platform) {
    forall k :: 0 <= k < |items| ==> TotalPreorder(rows, CompareBy(items[k], columns, platform))
  }

  lemma ComposePermutations(rows: seq<Row>, first: seq<nat>, mid: seq<Row>, second: seq<nat>,
      sorted: seq<Row>) returns (perm: seq<nat>)
    requires Permuted(rows, first, mid) && Permuted(mid, second, sorted)
    ensures Permuted(rows, perm, sorted)
    ensures forall i :: 0 <= i < |rows| ==> perm[i] == first[second[i]]
  {
    perm := seq(|rows|, i requires 0 <= i < |rows| => first[second[i]]);
    forall i, j | 0 <= i < j < |rows| ensures perm[i] != perm[j] {
      assert second[i] != second[j];
    }
    forall x: nat | x < |rows| ensures x in perm {
      assert x in first;
      var y :| 0 <= y < |first| && first[y] == x;
      assert y in second;
      var z :| 0 <= z < |second| && second[z] == y;
      assert perm[z] == x;
    }
  }

  /** Sorting stably by one more item in front turns the order by the rest into the order by all. */
  lemma FrontItem(rows: seq<Row>, items: seq<SortItem>, columns: seq<Column>, platform: Platform,
                  first: seq<nat>, mid: seq<Row>, second: seq<nat>, sorted: seq<Row>, perm: seq<nat>)
    requires items != []
    requires Permuted(rows, first, mid) && InOrder(rows, items[1..], columns, platform, first)
    requires Permuted(mid, second, sorted) && Permuted(rows, perm, sorted)
    requires forall i :: 0 <= i < |rows| ==> perm[i] == first[second[i]]
    requires Ascends(mid, CompareBy(items[0], columns, platform), second)
    ensures InOrder(rows, items, columns, platform, perm)
  {
    forall i, j | 0 <= i < j < |perm| ensures Before(rows, items, columns, platform, perm[i], perm[j]) {
      var a, b := sorted[i], sorted[j];
      assert a == rows[perm[i]] && b == rows[perm[j]] && a == mid[second[i]] && b == mid[second[j]];
      if CompareBy(items[0], columns, platform)(a, b) == Equal {
        assert Before(rows, items[1..], columns, platform, first[second[i]], first[second[j]]);
      }
    }
  }

  lemma PreorderSurvives(rows: seq<Row>, perm: seq<nat>, mid: seq<Row>, cmp: (Row, Row) -> Ordering)
    requires Permuted(rows, perm, mid) && TotalPreorder(rows, cmp)
    ensures TotalPreorder(mid, cmp)
  {
    forall r | r in mid ensures r in rows {
      var i :| 0 <= i < |mid| && mid[i] == r;
      assert rows[perm[i]] == r;
    }
  }

  /**
    * The result is the input permuted, ordered by all items, ties in input order; if some comparison is no order, just
    * permuted. By columns of one kind without NULL the values ascend or descend as the items say.
    */
  method SortRows(rows: seq<Row>, items: seq<SortItem>, columns: seq<Column>,
      platform: Platform) returns (sorted: seq<Row>)
    ensures Rearranged(rows, sorted)
    ensures Sortable(rows, items, columns, platform) ==> SortedBy(rows, items, columns, platform, sorted)
    ensures KeysPlain(rows, items, columns) ==> ValueSorted(rows, items, columns, sorted)
  {
    sorted := rows;
    ghost var identity := Identity(|rows|);
    ghost var perm: seq<nat> := identity;
    var k := |items|;
    while k > 0
      invariant 0 <= k <= |items|
      invariant Permuted(rows, perm, sorted)
      invariant Sortable(rows, items, columns, platform) ==> InOrder(rows, items[k..], columns, platform, perm)
    {
      k := k - 1;
      assert items[k..][1..] == items[k + 1..] && items[k..][0] == items[k];
      ghost var first, mid := perm, sorted;
      ghost var second: seq<nat> := identity;
      if Recognised(items[k], columns) {
        sorted := StableSort(sorted, CompareBy(items[k], columns, platform));
        if Sortable(rows, items, columns, platform) {
          PreorderSurvives(rows, perm, mid, CompareBy(items[k], columns, platform));
          second :| Permuted(mid, second, sorted) && Ascends(mid, CompareBy(items[k], columns, platform), second);
        } else {
          second :| Permuted(mid, second, sorted);
        }
      }
      perm := ComposePermutations(rows, first, mid, second, sorted);
      if Sortable(rows, items, columns, platform) {
        FrontItem(rows, items[k..], columns, platform, first, mid, second, sorted, perm);
      }
    }
    assert items[0..] == items;
    if KeysPlain(rows, items, columns) {
      SortedByValues(rows, items, columns, platform, sorted);
    }
  }

  // ---- The order determines the result ------------------------------------------------------------------

  lemma {:induction false} CompareLexReverses(rows: seq<Row>, items: seq<SortItem>, columns: seq<Column>,
      platform: Platform, a: Row, b: Row)
    requires Sortable(rows, items, columns, platform) && a in rows && b in rows
    ensures CompareLex(items, columns, platform, b, a) == CompareLex(items, columns, platform, a, b).Reverse()
  {
    if items != [] {
      assert TotalPreorder(rows, CompareBy(items[0], columns, platform));
      forall k | 0 <= k < |items[1..]| ensures TotalPreorder(rows, CompareBy(items[1..][k], columns, platform)) {
        assert items[1..][k] == items[k + 1];
      }
      CompareLexReverses(rows, items[1..], columns, platform, a, b);
    }
  }

  /** Two listings of the same things along an asymmetric relation are equal. */
  lemma {:induction false} OneListing(p: seq<nat>, q: seq<nat>, before: (nat, nat) -> bool)
    requires |p| == |q| && NoDup(p) && NoDup(q) && (forall x :: x in p <==> x in q)
    requires forall x, y :: before(x, y) ==> !before(y, x)
    requires forall i, j :: 0 <= i < j < |p| ==> before(p[i], p[j])
    requires forall i, j :: 0 <= i < j < |q| ==> before(q[i], q[j])
    ensures p == q
  {
    if p != [] {
      var a, b := p[0], q[0];
      assert a in q && b in p;
      var i :| 0 <= i < |q| && q[i] == a;
      var j :| 0 <= j < |p| && p[j] == b;
      assert a == b || (before(b, a) && before(a, b));
      assert p == [a] + p[1..] && q == [a] + q[1..];
      forall x ensures x in p[1..] <==> x in q[1..] {
        assert x in p <==> x == a || x in p[1..];
        assert x in q <==> x == a || x in q[1..];
        assert a !in p[1..] && a !in q[1..];
      }
      OneListing(p[1..], q[1..], before);
    }
  }

  lemma OnePermutation(rows: seq<Row>, items: seq<SortItem>, columns: seq<Column>, platform: Platform, p: seq<nat>,
      q: seq<nat>)
    requires Sortable(rows, items, columns, platform)
    requires IsPermutation(p, |rows|) && InOrder(rows, items, columns, platform, p)
    requires IsPermutation(q, |rows|) && InOrder(rows, items, columns, platform, q)
    ensures p == q
  {
    var before: (nat, nat) -> bool := (i: nat, j: nat) => i < |rows| && j < |rows| && Before(rows, items, columns, platform, i, j);
    forall x: nat, y: nat | before(x, y) ensures !before(y, x) {
      assert rows[x] in rows && rows[y] in rows;
      CompareLexReverses(rows, items, columns, platform, rows[x], rows[y]);
    }
    OneListing(p, q, before);
  }

  /** There is only one such result. */
  lemma SortIsUnique(rows: seq<Row>, items: seq<SortItem>, columns: seq<Column>, platform: Platform, a: seq<Row>,
      b: seq<Row>)
    requires Sortable(rows, items, columns, platform)
    requires SortedBy(rows, items, columns, platform, a) && SortedBy(rows, items, columns, platform, b)
    ensures a == b
  {
    var p: seq<nat> :| Permuted(rows, p, a) && InOrder(rows, items, columns, platform, p);
    var q: seq<nat> :| Permuted(rows, q, b) && InOrder(rows, items, columns, platform, q);
    OnePermutation(rows, items, columns, platform, p, q);
  }

  // ---- When the comparison is an order --------------------------------------------------------------------

  ghost predicate OrderedColumn(cells: set<Value>, ascending: bool, platform: Platform) {
    && (forall a, b :: a in cells && b in cells ==> CompareCells(b, a, ascending, platform) == CompareCells(a, b, ascending, platform).Reverse())
    && (forall a, b, c :: a in cells && b in cells && c in cells
                          && CompareCells(a, b, ascending, platform) != Greater && CompareCells(b, c, ascending, platform) != Greater
                          ==> CompareCells(a, c, ascending, platform) != Greater)
  }

  /** NULLs aside, the cells are all integers, all unsigned integers, or all texts. */
  ghost predicate SingleKind(cells: set<Value>) {
    || (forall v :: v in cells ==> v.Null? || v.Int?)
    || (forall v :: v in cells ==> v.Null? || v.UInt?)
    || (forall v :: v in cells ==> v.Null? || v.Text?)
  }

  lemma CellOrder(a: Value, b: Value, c: Value, ascending: bool, platform: Platform)
    requires (a.Int? && b.Int? && c.Int?) || (a.UInt? && b.UInt? && c.UInt?) || (a.Text? && b.Text? && c.Text?)
    ensures CompareCells(b, a, ascending, platform) == CompareCells(a, b, ascending, platform).Reverse()
    ensures CompareCells(a, b, ascending, platform) == Equal <==> a == b
    ensures CompareCells(a, b, ascending, platform) != Greater && CompareCells(b, c, ascending, platform) != Greater
            ==> CompareCells(a, c, ascending, platform) != Greater
  {
    StrCmpIsLawful();
  }

  /**
    * On a column of one kind the comparison is an order exactly when there is no NULL, or nothing for NULL to tell
    * apart.
    */
  lemma NullsBreakOrder(cells: set<Value>, ascending: bool, platform: Platform)
    requires SingleKind(cells)
    ensures OrderedColumn(cells, ascending, platform)
       <==> Null !in cells || forall a, b :: a in cells && b in cells && a != Null && b != Null ==> a == b
  {
    forall a, b, c | a in cells && b in cells && c in cells && a != Null && b != Null && c != Null
      ensures CompareCells(b, a, ascending, platform) == CompareCells(a, b, ascending, platform).Reverse()
      ensures CompareCells(a, b, ascending, platform) == Equal <==> a == b
      ensures CompareCells(a, b, ascending, platform) != Greater && CompareCells(b, c, ascending, platform) != Greater
              ==> CompareCells(a, c, ascending, platform) != Greater
    {
      CellOrder(a, b, c, ascending, platform);
    }
    if Null in cells && exists a, b :: a in cells && b in cells && a != Null && b != Null && a != b {
      var a, b :| a in cells && b in cells && a != Null && b != Null && a != b;
      var low, high := if CompareCells(a, b, ascending, platform) == Less then a else b, if CompareCells(a, b, ascending, platform) == Less then b else a;
      assert CompareCells(high, Null, ascending, platform) == Equal && CompareCells(Null, low, ascending, platform) == Equal;
      assert CompareCells(high, low, ascending, platform) == Greater;
    }
  }

  /** The cells of a column. */
  function CellsOf(rows: seq<Row>, index: nat): set<Value> {
    set r | r in rows :: CellAt(index, r)
  }

  /** So NULL-free columns of one kind can be sorted by. */
  lemma PlainColumnsAreSortable(rows: seq<Row>, items: seq<SortItem>, columns: seq<Column>, platform: Platform)
    requires forall k :: 0 <= k < |items| && Recognised(items[k], columns) ==>
                           SingleKind(CellsOf(rows, Position(columns, items[k].name))) && Null !in CellsOf(rows, Position(columns, items[k].name))
    ensures Sortable(rows, items, columns, platform)
  {
    forall k | 0 <= k < |items| ensures TotalPreorder(rows, CompareBy(items[k], columns, platform)) {
      if Recognised(items[k], columns) {
        var p := Position(columns, items[k].name);
        NullsBreakOrder(CellsOf(rows, p), items[k].ascending, platform);
        assert OrderedColumn(CellsOf(rows, p), items[k].ascending, platform);
        assert forall r :: r in rows ==> CellAt(p, r) in CellsOf(rows, p);
      }
    }
  }

  // ---- Which way the values go ----------------------------------------------------------------------------

  /** The cells of that column are all integers, all unsigned integers, or all texts. */
  ghost predicate PlainKey(rows: seq<Row>, name: Str, columns: seq<Column>) {
    || (forall r :: r in rows ==> Cell(columns, name, r.values).Int?)
    || (forall r :: r in rows ==> Cell(columns, name, r.values).UInt?)
    || (forall r :: r in rows ==> Cell(columns, name, r.values).Text?)
  }

  ghost predicate KeysPlain(rows: seq<Row>, items: seq<SortItem>, columns: seq<Column>) {
    forall k :: 0 <= k < |items| && Recognised(items[k], columns) ==> PlainKey(rows, items[k].name, columns)
  }

  /** The rows' cells in the item's column differ. */
  predicate TellsApart(item: SortItem, columns: seq<Column>, a: Row, b: Row) {
    item.ByColumn? && Cell(columns, item.name, a.values) != Cell(columns, item.name, b.values)
  }

  /** At the first item that tells the rows apart, the values ascend if the item does and descend if it does. */
  ghost predicate Precedes(items: seq<SortItem>, columns: seq<Column>, a: Row, b: Row) {
    exists k :: && 0 <= k < |items| && TellsApart(items[k], columns, a, b)
                && (forall m :: 0 <= m < k ==> !TellsApart(items[m], columns, a, b))
                && ValueCmp(Cell(columns, items[k].name, a.values), Cell(columns, items[k].name, b.values))
                   == if items[k].ascending then Less else Greater
  }

  predicate Ties(items: seq<SortItem>, columns: seq<Column>, a: Row, b: Row) {
    forall k :: 0 <= k < |items| ==> !TellsApart(items[k], columns, a, b)
  }

  /**
    * `sorted` is a permutation of `rows` in which every row precedes the later ones, or ties with them and stood before
    * them.
    */
  ghost predicate ValueSorted(rows: seq<Row>, items: seq<SortItem>, columns: seq<Column>, sorted: seq<Row>) {
    exists perm: seq<nat> :: Permuted(rows, perm, sorted) && InValueOrder(sorted, items, columns, perm)
  }

  ghost predicate InValueOrder(sorted: seq<Row>, items: seq<SortItem>, columns: seq<Column>, perm: seq<nat>) {
    && |sorted| == |perm|
    && forall i, j :: 0 <= i < j < |perm| ==>
                        Precedes(items, columns, sorted[i], sorted[j]) || (Ties(items, columns, sorted[i], sorted[j]) && perm[i] < perm[j])
  }

  lemma CellsCompareValues(u: Value, v: Value, ascending: bool, platform: Platform)
    requires (u.Int? && v.Int?) || (u.UInt? && v.UInt?) || (u.Text? && v.Text?)
    ensures CompareCells(u, v, ascending, platform) == Equal <==> u == v
    ensures CompareCells(u, v, ascending, platform) == Less ==> ValueCmp(u, v) == if ascending then Less else Greater
  {
    ValueCmpReverses(u, v);
    assert CompareValues(u, v, platform) == Some(ValueCmp(u, v));
  }

  lemma ItemComparesValues(rows: seq<Row>, item: SortItem, columns: seq<Column>, platform: Platform, a: Row, b: Row)
    requires a in rows && b in rows && (Recognised(item, columns) ==> PlainKey(rows, item.name, columns))
    ensures CompareBy(item, columns, platform)(a, b) == Equal <==> !TellsApart(item, columns, a, b)
    ensures CompareBy(item, columns, platform)(a, b) == Less ==>
              item.ByColumn?
              && ValueCmp(Cell(columns, item.name, a.values), Cell(columns, item.name, b.values)) == if item.ascending then Less else Greater
  {
    if Recognised(item, columns) {
      var u, v := Cell(columns, item.name, a.values), Cell(columns, item.name, b.values);
      assert CellAt(Position(columns, item.name), a) == u && CellAt(Position(columns, item.name), b) == v;
      CellsCompareValues(u, v, item.ascending, platform);
    }
  }

  lemma {:induction false} LexComparesValues(rows: seq<Row>, items: seq<SortItem>, columns: seq<Column>,
      platform: Platform, a: Row, b: Row)
    requires KeysPlain(rows, items, columns) && a in rows && b in rows
    ensures CompareLex(items, columns, platform, a, b) == Less ==> Precedes(items, columns, a, b)
    ensures CompareLex(items, columns, platform, a, b) == Equal ==> Ties(items, columns, a, b)
  {
    if items != [] {
      var rest := items[1..];
      ItemComparesValues(rows, items[0], columns, platform, a, b);
      forall k | 0 <= k < |rest| && Recognised(rest[k], columns) ensures PlainKey(rows, rest[k].name, columns) {
        assert rest[k] == items[k + 1];
      }
      LexComparesValues(rows, rest, columns, platform, a, b);
      if CompareBy(items[0], columns, platform)(a, b) == Equal {
        FrontTies(items, columns, a, b);
      } else if CompareLex(items, columns, platform, a, b) == Less {
        assert TellsApart(items[0], columns, a, b);
      }
    }
  }

  lemma FrontTies(items: seq<SortItem>, columns: seq<Column>, a: Row, b: Row)
    requires items != [] && !TellsApart(items[0], columns, a, b)
    ensures Precedes(items[1..], columns, a, b) ==> Precedes(items, columns, a, b)
    ensures Ties(items[1..], columns, a, b) ==> Ties(items, columns, a, b)
  {
    var rest := items[1..];
    assert forall k :: 0 < k < |items| ==> items[k] == rest[k - 1];
    if Precedes(rest, columns, a, b) {
      var k :| && 0 <= k < |rest| && TellsApart(rest[k], columns, a, b)
               && (forall m :: 0 <= m < k ==> !TellsApart(rest[m], columns, a, b))
               && ValueCmp(Cell(columns, rest[k].name, a.values), Cell(columns, rest[k].name, b.values))
                  == if rest[k].ascending then Less else Greater;
      assert items[k + 1] == rest[k];
    }
  }

  lemma KeysPlainAreSortable(rows: seq<Row>, items: seq<SortItem>, columns: seq<Column>, platform: Platform)
    requires KeysPlain(rows, items, columns)
    ensures Sortable(rows, items, columns, platform)
  {
    forall k | 0 <= k < |items| && Recognised(items[k], columns)
      ensures SingleKind(CellsOf(rows, Position(columns, items[k].name))) && Null !in CellsOf(rows, Position(columns, items[k].name))
    {
      assert PlainKey(rows, items[k].name, columns);
      forall r: Row ensures CellAt(Position(columns, items[k].name), r) == Cell(columns, items[k].name, r.values) { }
    }
    PlainColumnsAreSortable(rows, items, columns, platform);
  }

  /** Rows sorted by such columns go the way the items say, and ties keep their order. */
  lemma SortedByValues(rows: seq<Row>, items: seq<SortItem>, columns: seq<Column>, platform: Platform, sorted: seq<Row>)
    requires KeysPlain(rows, items, columns)
    requires Sortable(rows, items, columns, platform) ==> SortedBy(rows, items, columns, platform, sorted)
    ensures ValueSorted(rows, items, columns, sorted)
  {
    KeysPlainAreSortable(rows, items, columns, platform);
    var perm: seq<nat> :| Permuted(rows, perm, sorted) && InOrder(rows, items, columns, platform, perm);
    forall i, j | 0 <= i < j < |perm|
      ensures Precedes(items, columns, sorted[i], sorted[j]) || (Ties(items, columns, sorted[i], sorted[j]) && perm[i] < perm[j])
    {
      assert Before(rows, items, columns, platform, perm[i], perm[j]);
      LexComparesValues(rows, items, columns, platform, sorted[i], sorted[j]);
    }
  }

  // ---- OFFSET and LIMIT -----------------------------------------------------------------------------------------

  /** The rows from `offset` on, `limit` of them if there are that many. */
  function Slice(rows: seq<Row>, offset: nat, limit: Option<nat>): (page: seq<Row>)
    ensures |page| == (var left := if offset < |rows| then |rows| - offset else 0;
                       if limit.Some? && limit.value < left then limit.value else left)
    ensures forall i :: 0 <= i < |page| ==> offset + i < |rows| && page[i] == rows[offset + i]
  {
    var left := if offset < |rows| then rows[offset..] else [];
    if limit.Some? && limit.value < |left| then left[..limit.value] else left
  }

  method Page(rows: seq<Row>, offset: nat, limit: Option<nat>) returns (page: seq<Row>)
    ensures page == Slice(rows, offset, limit)
  {
    page := rows;
    if offset > 0 {
      var start := if offset < |page| then offset else |page|;
      page := page[start..];
    }
    if limit.Some? && limit.value < |page| {
      page := page[..limit.value];
    }
  }
}
