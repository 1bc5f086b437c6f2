/** SELECT through an index against SELECT by scan (`execute_query`, `try_index_lookup` in `src/engine/executor.rs`). */
module Select {
  import opened Prelude
  import opened Types
  import opened Index
  import opened Storage
  import opened Catalog
  import opened Maintenance
  import opened Where
  import opened Engine
  import opened Sections
  import opened Coherence

  /** The key that the conditions give for the first `k` columns of the index, if they give all of them. */
  function PartialKey(def: IndexDef, eq: map<Str, Value>, k: nat): Option<Key>
    requires k <= |def.columns|
  {
    if k == 0 then Some([])
    else
      match PartialKey(def, eq, k - 1)
      case None => None
      case Some(key) =>
        if Lower(def.columns[k - 1]) in eq then Some(key + [eq[Lower(def.columns[k - 1])]]) else None
  }

  function FullKey(def: IndexDef, eq: map<Str, Value>): Option<Key> {
    if def.columns == [] then None else PartialKey(def, eq, |def.columns|)
  }

  /** Whether the index can answer: all its columns have a condition and its data is there. */
  predicate Usable(data: Entries, tn: Str, def: IndexDef, eq: map<Str, Value>) {
    FullKey(def, eq).Some? && EntryName(tn, def.name) in data
  }

  /** The first usable index, or `|defs|`. */
  function FirstUsable(data: Entries, tn: Str, defs: seq<IndexDef>, eq: map<Str, Value>): (p: nat)
    ensures p <= |defs|
    ensures p < |defs| ==> Usable(data, tn, defs[p], eq)
    ensures forall i :: 0 <= i < p ==> !Usable(data, tn, defs[i], eq)
  {
    if defs == [] || Usable(data, tn, defs[0], eq) then 0 else 1 + FirstUsable(data, tn, defs[1..], eq)
  }

  /** `try_index_lookup`. */
  function IndexLookup(s: Store, table: Str, e: Expr, defs: seq<IndexDef>): Option<seq<nat>> {
    var eq := EqConditions(e, map[]);
    var p := FirstUsable(s.indexData, Lower(table), defs, eq);
    if eq == map[] || p == |defs| then None
    else Some(Ids(s.indexData[EntryName(Lower(table), defs[p].name)], FullKey(defs[p], eq).value))
  }

  /** The live rows among `ids`, in that order. */
  function Fetch(t: Table, ids: seq<nat>): seq<Row> {
    if ids == [] then []
    else
      var last := ids[|ids| - 1];
      Fetch(t, ids[..|ids| - 1]) + if last in t then [t[last]] else []
  }

  /** The rows of a SELECT before ordering and projection. */
  function SelectRows(s: Store, table: Str, selection: Option<Expr>, defs: seq<IndexDef>, columns: seq<Column>,
      platform: Platform): seq<Row> {
    var ids := if selection.None? then None else IndexLookup(s, table, selection.value, defs);
    if ids.Some? then Filter(Fetch(TableOf(s, table), ids.value), Chooses(selection, columns, platform))
    else ChosenRows(TableOf(s, table), selection, columns, platform)
  }

  // ---- Soundness ---------------------------------------------------------------------------------------

  lemma {:induction false} FetchMembers(t: Table, ids: seq<nat>)
    requires forall id :: id in t ==> t[id].id == id
    ensures forall r :: r in Fetch(t, ids) <==> r.id in ids && r.id in t && t[r.id] == r
  {
    if ids != [] {
      var init, last := ids[..|ids| - 1], ids[|ids| - 1];
      FetchMembers(t, init);
      assert ids == init + [last];
      assert forall id :: id in ids <==> id in init || id == last;
    }
  }

  /** Whatever the index holds, a SELECT returns only rows that the scan would return. */
  lemma SelectIsSound(s: Store, table: Str, selection: Option<Expr>, defs: seq<IndexDef>, columns: seq<Column>,
      platform: Platform)
    requires WfStore(s)
    ensures forall r :: r in SelectRows(s, table, selection, defs, columns, platform)
                        ==> r in ChosenRows(TableOf(s, table), selection, columns, platform)
  {
    var t := TableOf(s, table);
    ChosenRowsAreChosen(t, selection, columns, platform, NextOf(s, table));
    if selection.Some? && IndexLookup(s, table, selection.value, defs).Some? {
      var ids := IndexLookup(s, table, selection.value, defs).value;
      FetchMembers(t, ids);
      FilterMembers(Fetch(t, ids), Chooses(selection, columns, platform));
    }
  }

  // ---- Completeness --------------------------------------------------------------------------------------

  lemma {:induction false} PartialKeyOfOne(def: IndexDef, name: Str, v: Value, k: nat)
    requires k <= |def.columns| && PartialKey(def, map[Lower(name) := v], k).Some?
    ensures var key := PartialKey(def, map[Lower(name) := v], k).value;
            |key| == k && forall i :: 0 <= i < k ==> key[i] == v && SameName(def.columns[i], name)
  {
    if k > 0 {
      PartialKeyOfOne(def, name, v, k - 1);
    }
  }

  /**
    * With a condition on one column, an index is usable only if all its columns are that column, and its key repeats
    * the literal.
    */
  lemma KeyOfOneCondition(def: IndexDef, name: Str, v: Value, columns: seq<Column>, values: seq<Value>)
    requires FullKey(def, map[Lower(name) := v]).Some?
    ensures FullKey(def, map[Lower(name) := v]).value == KeyOf(def, columns, values) <==> Cell(columns, name, values) == v
  {
    PartialKeyOfOne(def, name, v, |def.columns|);
    var key, own := FullKey(def, map[Lower(name) := v]).value, KeyOf(def, columns, values);
    forall i | 0 <= i < |def.columns| ensures own[i] == Cell(columns, name, values) && key[i] == v {
      PositionIgnoresCase(columns, def.columns[i], name);
    }
    if Cell(columns, name, values) == v {
      assert key == own;
    } else {
      assert key[0] != own[0];
    }
  }

  lemma AtomSelects(e: Expr, name: Str, v: Value, columns: seq<Column>, values: seq<Value>, platform: Platform)
    requires IsAtom(e, name, v) && EqConditions(e, map[]) == map[Lower(name) := v]
    requires Selected(Some(e), columns, values, platform)
    ensures Accepts(Cell(columns, name, values), v, platform)
  {
  }

  /** The scan takes a stored value and the literal for equal, whichever side each stands on. */
  predicate Accepts(stored: Value, literal: Value, platform: Platform) {
    ValuesEqual(stored, literal, platform) || ValuesEqual(literal, stored, platform)
  }

  /** NULLs aside, the stored value is an integer or a text like the literal. */
  predicate SameKind(stored: Value, literal: Value) {
    || stored.Null? || literal.Null?
    || (stored.Int? && literal.Int?) || (stored.UInt? && literal.UInt?) || (stored.Text? && literal.Text?)
  }

  lemma SameKindIsExact(stored: Value, literal: Value, platform: Platform)
    requires SameKind(stored, literal)
    ensures Accepts(stored, literal, platform) ==> stored == literal
  {
  }

  /** For every column compared with a literal, the selected rows hold that very value. */
  ghost predicate LiteralExact(t: Table, e: Expr, columns: seq<Column>, platform: Platform) {
    forall id, name, v ::
      (&& id in t && IsAtom(e, name, v) && Selected(Some(e), columns, t[id].values, platform)
       && EqConditions(e, map[]) == map[Lower(name) := v])
      ==> Cell(columns, name, t[id].values) == v
  }

  ghost predicate KindsAgree(t: Table, e: Expr, columns: seq<Column>) {
    forall id, name, v :: id in t && IsAtom(e, name, v) ==> SameKind(Cell(columns, name, t[id].values), v)
  }

  lemma KindsMakeExact(t: Table, e: Expr, columns: seq<Column>, platform: Platform)
    requires KindsAgree(t, e, columns)
    ensures LiteralExact(t, e, columns, platform)
  {
    forall id, name, v | id in t && IsAtom(e, name, v) && Selected(Some(e), columns, t[id].values, platform)
                         && EqConditions(e, map[]) == map[Lower(name) := v]
      ensures Cell(columns, name, t[id].values) == v
    {
      AtomSelects(e, name, v, columns, t[id].values, platform);
      SameKindIsExact(Cell(columns, name, t[id].values), v, platform);
    }
  }

  /** Every row outside `pending` is filed under its own key in every index of the table that has data. */
  ghost predicate Complete(s: Store, table: Str, defs: seq<IndexDef>, columns: seq<Column>, pending: set<nat>) {
    forall i, x :: 0 <= i < |defs| && x in TableOf(s, table) && x !in pending && EntryName(Lower(table), defs[i].name) in s.indexData ==>
                     x in Filed(s.indexData, EntryName(Lower(table), defs[i].name), KeyOf(defs[i], columns, TableOf(s, table)[x].values))
  }

  /** A row that the scan returns and whose INSERT is not halfway is returned through the index too. */
  lemma SelectIsComplete(s: Store, table: Str, selection: Option<Expr>, defs: seq<IndexDef>, columns: seq<Column>,
      platform: Platform, pending: set<nat>, r: Row)
    requires WfStore(s) && Complete(s, table, defs, columns, pending)
    requires selection.Some? ==> LiteralExact(TableOf(s, table), selection.value, columns, platform)
    requires r in ChosenRows(TableOf(s, table), selection, columns, platform) && r.id !in pending
    ensures r in SelectRows(s, table, selection, defs, columns, platform)
  {
    var t := TableOf(s, table);
    ChosenRowsAreChosen(t, selection, columns, platform, NextOf(s, table));
    if selection.Some? && IndexLookup(s, table, selection.value, defs).Some? {
      var e := selection.value;
      SelectedConditionIsAtom(e, columns, r.values, platform);
      var name, v :| EqConditions(e, map[]) == map[Lower(name) := v] && IsAtom(e, name, v);
      var p := FirstUsable(s.indexData, Lower(table), defs, EqConditions(e, map[]));
      assert Cell(columns, name, t[r.id].values) == v;
      KeyOfOneCondition(defs[p], name, v, columns, r.values);
      var ids := IndexLookup(s, table, e, defs).value;
      assert r.id in ids;
      FetchMembers(t, ids);
      FilterMembers(Fetch(t, ids), Chooses(selection, columns, platform));
    }
  }

  lemma InStepIsComplete(d: DatabaseDef, s: Store, table: Str)
    requires AllInStep(d, s) && Lower(table) in d.tables && Lower(table) in d.indexes
    ensures Complete(s, table, d.indexes[Lower(table)], d.tables[Lower(table)].columns, {})
  {
    var tn := Lower(table);
    var defs, columns, t := d.indexes[tn], d.tables[tn].columns, TableOf(s, table);
    assert TableInStep(d, s, tn);
    forall i, x | 0 <= i < |defs| && x in t ensures x in Filed(s.indexData, EntryName(tn, defs[i].name), KeyOf(defs[i], columns, t[x].values)) {
      assert InStep(s.indexData, EntryName(tn, defs[i].name), defs[i], columns, TableOf(s, tn));
      assert TableOf(s, tn) == t;
    }
  }

  // ---- How often a row is answered -------------------------------------------------------------------------

  lemma {:induction false} FetchCounts(t: Table, ids: seq<nat>, r: Row)
    requires forall id :: id in t ==> t[id].id == id
    requires r.id in t && t[r.id] == r
    ensures multiset(Fetch(t, ids))[r] == multiset(ids)[r.id]
  {
    if ids != [] {
      var init, last := ids[..|ids| - 1], ids[|ids| - 1];
      FetchCounts(t, init, r);
      assert ids == init + [last];
    }
  }

  lemma {:induction false} FilterCounts<T>(s: seq<T>, keep: T -> bool, x: T)
    ensures multiset(Filter(s, keep))[x] == if keep(x) then multiset(s)[x] else 0
  {
    if s != [] {
      var init, last := s[..|s| - 1], s[|s| - 1];
      FilterCounts(init, keep, x);
      assert s == init + [last];
    }
  }

  lemma {:induction false} NoDupCounts<T>(s: seq<T>, x: T)
    ensures NoDup(s) ==> multiset(s)[x] == if x in s then 1 else 0
    ensures x in s <==> multiset(s)[x] > 0
  {
    if s != [] {
      var init, last := s[..|s| - 1], s[|s| - 1];
      NoDupCounts(init, x);
      assert s == init + [last];
    }
  }

  lemma ChosenOnce(t: Table, selection: Option<Expr>, columns: seq<Column>, platform: Platform, next: nat, r: Row)
    requires WfTable(t, next)
    ensures var chosen := ChosenRows(t, selection, columns, platform);
            multiset(chosen)[r] == if r in chosen then 1 else 0
  {
    ChosenRowsAreChosen(t, selection, columns, platform, next);
    NoDupCounts(ChosenRows(t, selection, columns, platform), r);
  }

  /**
    * Through an index, a selected row is answered as often as its id stands in the posting that is used, any other row
    * never.
    */
  lemma AnswerCounts(s: Store, table: Str, e: Expr, defs: seq<IndexDef>, columns: seq<Column>, platform: Platform,
      r: Row)
    requires WfStore(s) && IndexLookup(s, table, e, defs).Some?
    ensures multiset(SelectRows(s, table, Some(e), defs, columns, platform))[r]
         == if r in ChosenRows(TableOf(s, table), Some(e), columns, platform) then multiset(IndexLookup(s, table, e, defs).value)[r.id] else 0
  {
    var t, ids := TableOf(s, table), IndexLookup(s, table, e, defs).value;
    ChosenRowsAreChosen(t, Some(e), columns, platform, NextOf(s, table));
    FilterCounts(Fetch(t, ids), Chooses(Some(e), columns, platform), r);
    NoDupCounts(Fetch(t, ids), r);
    FetchMembers(t, ids);
    if r.id in t && t[r.id] == r {
      FetchCounts(t, ids, r);
    }
  }

  /** Both ways of answering give the same rows, each as often. */
  ghost predicate SameRows(s: Store, table: Str, e: Expr, defs: seq<IndexDef>, columns: seq<Column>,
      platform: Platform) {
    multiset(SelectRows(s, table, Some(e), defs, columns, platform)) == multiset(ChosenRows(TableOf(s, table), Some(e), columns, platform))
  }

  /** Every selected row's id stands once in the posting that is used. */
  ghost predicate FiledOnce(s: Store, table: Str, e: Expr, defs: seq<IndexDef>, columns: seq<Column>,
      platform: Platform) {
    IndexLookup(s, table, e, defs).Some? ==>
      forall r :: r in ChosenRows(TableOf(s, table), Some(e), columns, platform) ==> multiset(IndexLookup(s, table, e, defs).value)[r.id] == 1
  }

  lemma OnceEach(answer: seq<Row>, chosen: seq<Row>, ids: seq<nat>)
    requires forall r :: multiset(chosen)[r] == if r in chosen then 1 else 0
    requires forall r :: multiset(answer)[r] == if r in chosen then multiset(ids)[r.id] else 0
    ensures multiset(answer) == multiset(chosen) <==> forall r :: r in chosen ==> multiset(ids)[r.id] == 1
  {
    if multiset(answer) == multiset(chosen) {
      forall r | r in chosen ensures multiset(ids)[r.id] == 1 {
        assert multiset(answer)[r] == multiset(chosen)[r];
      }
    }
  }

  /** Whatever the index holds, the answer is the scan's, row for row, exactly when that is so. */
  lemma SameRowsIsFiledOnce(s: Store, table: Str, e: Expr, defs: seq<IndexDef>, columns: seq<Column>,
      platform: Platform)
    requires WfStore(s)
    ensures SameRows(s, table, e, defs, columns, platform) <==> FiledOnce(s, table, e, defs, columns, platform)
  {
    if IndexLookup(s, table, e, defs).Some? {
      var chosen, answer := ChosenRows(TableOf(s, table), Some(e), columns, platform), SelectRows(s, table, Some(e), defs, columns, platform);
      forall r: Row
        ensures multiset(chosen)[r] == if r in chosen then 1 else 0
        ensures multiset(answer)[r] == if r in chosen then multiset(IndexLookup(s, table, e, defs).value)[r.id] else 0
      {
        ChosenOnce(TableOf(s, table), Some(e), columns, platform, NextOf(s, table), r);
        AnswerCounts(s, table, e, defs, columns, platform, r);
      }
      OnceEach(answer, chosen, IndexLookup(s, table, e, defs).value);
    }
  }

  /** The posting that is used is the list of one key in one index of the table. */
  lemma PostingUsed(s: Store, table: Str, e: Expr, defs: seq<IndexDef>) returns (p: nat, key: Key)
    requires IndexLookup(s, table, e, defs).Some?
    ensures p < |defs|
    ensures IndexLookup(s, table, e, defs).value == Filed(s.indexData, EntryName(Lower(table), defs[p].name), key)
  {
    var eq := EqConditions(e, map[]);
    p := FirstUsable(s.indexData, Lower(table), defs, eq);
    key := FullKey(defs[p], eq).value;
  }

  /**
    * With indexes in step, answering through an index gives the scan's rows exactly when the literal matches only
    * identical values.
    */
  lemma IndexedSelectRefinesScan(d: DatabaseDef, s: Store, table: Str, e: Expr, platform: Platform)
    requires AllInStep(d, s) && Lower(table) in d.tables && Lower(table) in d.indexes
    requires IndexLookup(s, table, e, d.indexes[Lower(table)]).Some?
    ensures SameRows(s, table, e, d.indexes[Lower(table)], d.tables[Lower(table)].columns, platform)
       <==> LiteralExact(TableOf(s, table), e, d.tables[Lower(table)].columns, platform)
  {
    var tn := Lower(table);
    var defs, columns, t := d.indexes[tn], d.tables[tn].columns, TableOf(s, table);
    if LiteralExact(t, e, columns, platform) {
      InStepIsComplete(d, s, table);
      var ids: seq<nat> := IndexLookup(s, table, e, defs).value;
      PostingHasNoDup(d, s, table, e);
      forall r | r in ChosenRows(t, Some(e), columns, platform) ensures multiset(ids)[r.id] == 1 {
        SelectIsComplete(s, table, Some(e), defs, columns, platform, {}, r);
        NoDupCounts(SelectRows(s, table, Some(e), defs, columns, platform), r);
        AnswerCounts(s, table, e, defs, columns, platform, r);
        NoDupCounts(ids, r.id);
      }
      SameRowsIsFiledOnce(s, table, e, defs, columns, platform);
    } else {
      var id, name, v :| id in t && IsAtom(e, name, v) && Selected(Some(e), columns, t[id].values, platform)
                         && EqConditions(e, map[]) == map[Lower(name) := v] && Cell(columns, name, t[id].values) != v;
      MissedByIndex(d, s, table, e, platform, id, name, v);
    }
  }

  lemma PostingHasNoDup(d: DatabaseDef, s: Store, table: Str, e: Expr)
    requires AllInStep(d, s) && Lower(table) in d.tables && Lower(table) in d.indexes
    requires IndexLookup(s, table, e, d.indexes[Lower(table)]).Some?
    ensures NoDup(IndexLookup(s, table, e, d.indexes[Lower(table)]).value)
  {
    var tn := Lower(table);
    var p, key := PostingUsed(s, table, e, d.indexes[tn]);
    assert TableInStep(d, s, tn);
    assert InStep(s.indexData, EntryName(tn, d.indexes[tn][p].name), d.indexes[tn][p], d.tables[tn].columns, TableOf(s, tn));
  }

  /** A row accepted by the scan for a value that is not the literal itself is not found through the index. */
  lemma MissedByIndex(d: DatabaseDef, s: Store, table: Str, e: Expr, platform: Platform, id: nat, name: Str, v: Value)
    requires AllInStep(d, s) && Lower(table) in d.tables && Lower(table) in d.indexes
    requires IndexLookup(s, table, e, d.indexes[Lower(table)]).Some?
    requires id in TableOf(s, table) && Selected(Some(e), d.tables[Lower(table)].columns, TableOf(s, table)[id].values, platform)
    requires EqConditions(e, map[]) == map[Lower(name) := v]
    requires Cell(d.tables[Lower(table)].columns, name, TableOf(s, table)[id].values) != v
    ensures TableOf(s, table)[id] in ChosenRows(TableOf(s, table), Some(e), d.tables[Lower(table)].columns, platform)
    ensures TableOf(s, table)[id] !in SelectRows(s, table, Some(e), d.indexes[Lower(table)], d.tables[Lower(table)].columns, platform)
    ensures !SameRows(s, table, e, d.indexes[Lower(table)], d.tables[Lower(table)].columns, platform)
  {
    var tn := Lower(table);
    var defs, columns, t := d.indexes[tn], d.tables[tn].columns, TableOf(s, table);
    ChosenRowsAreChosen(t, Some(e), columns, platform, NextOf(s, table));
    assert TableInStep(d, s, tn);
    var p := FirstUsable(s.indexData, tn, defs, EqConditions(e, map[]));
    var ids := IndexLookup(s, table, e, defs).value;
    KeyOfOneCondition(defs[p], name, v, columns, t[id].values);
    assert InStep(s.indexData, EntryName(tn, defs[p].name), defs[p], columns, TableOf(s, tn));
    assert TableOf(s, tn) == t;
    assert ids == Filed(s.indexData, EntryName(tn, defs[p].name), FullKey(defs[p], EqConditions(e, map[])).value);
    assert id !in ids;
    FetchMembers(t, ids);
    FilterMembers(Fetch(t, ids), Chooses(Some(e), columns, platform));
    assert t[id] in multiset(ChosenRows(t, Some(e), columns, platform));
    assert t[id] !in multiset(SelectRows(s, table, Some(e), defs, columns, platform));
  }

  /**
    * After any run that keeps its indexes in step, a SELECT through an index has the scan's rows exactly for such
    * literals.
    */
  lemma RunSelectsLikeScan(db: Str, statements: seq<Statement>, platform: Platform, table: Str, e: Expr)
    requires Tidy(db, statements, platform)
    ensures var engine := Run(db, statements, platform);
            && SRRDB in engine.defs.databases
            && var d := engine.defs.databases[SRRDB];
            Lower(table) in d.tables && Lower(table) in d.indexes && IndexLookup(engine.store, table, e, d.indexes[Lower(table)]).Some? ==>
              (SameRows(engine.store, table, e, d.indexes[Lower(table)], d.tables[Lower(table)].columns, platform)
               <==> LiteralExact(TableOf(engine.store, table), e, d.tables[Lower(table)].columns, platform))
  {
    RunInStep(db, statements, platform);
    var engine := Run(db, statements, platform);
    var d := engine.defs.databases[SRRDB];
    if Lower(table) in d.tables && IndexLookup(engine.store, table, e, d.indexes[Lower(table)]).Some? {
      IndexedSelectRefinesScan(d, engine.store, table, e, platform);
    }
  }

  /**
    * Conditions that give an index over two different columns its key are joined by AND over comparisons, so they
    * select no row at all.
    */
  lemma CompositeKeySelectsNothing(def: IndexDef, e: Expr, columns: seq<Column>, values: seq<Value>,
      platform: Platform, i: nat, j: nat)
    requires FullKey(def, EqConditions(e, map[])).Some?
    requires i < |def.columns| && j < |def.columns| && !SameName(def.columns[i], def.columns[j])
    ensures !Selected(Some(e), columns, values, platform)
  {
    if Selected(Some(e), columns, values, platform) {
      if EqConditions(e, map[]) == map[] {
        NoConditionsNoKey(def, |def.columns|);
      } else {
        SelectedConditionIsAtom(e, columns, values, platform);
        var name, v :| EqConditions(e, map[]) == map[Lower(name) := v] && IsAtom(e, name, v);
        PartialKeyOfOne(def, name, v, |def.columns|);
      }
    }
  }

  lemma {:induction false} NoConditionsNoKey(def: IndexDef, k: nat)
    requires 0 < k <= |def.columns|
    ensures PartialKey(def, map[], k) == None
  {
    if k > 1 {
      NoConditionsNoKey(def, k - 1);
    }
  }
}
