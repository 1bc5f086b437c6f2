/** `rebuild_indexes` of `src/engine/executor.rs`: all index data made anew from the tables. */
module Rebuild {
  import opened Prelude
  import opened Types
  import opened Index
  import opened Storage
  import opened Catalog
  import opened WalEntries
  import opened Maintenance
  import opened Engine
  import opened Sections
  import opened Recovery
  import opened Coherence

  function Builder(columns: seq<Column>, rows: seq<Row>): IndexDef -> Postings {
    (def: IndexDef) => BuildIndex(def, columns, rows)
  }

  function RebuiltTable(data: Entries, tn: Str, defs: seq<IndexDef>, build: IndexDef -> Postings): Entries {
    if defs == [] then data
    else RebuiltTable(data, tn, defs[..|defs| - 1], build)[EntryName(tn, defs[|defs| - 1].name) := build(defs[|defs| - 1])]
  }

  /** The entries after the tables in `order` are done; a table without definitions changes nothing. */
  function RebuiltTables(d: DatabaseDef, s: Store, order: seq<Str>): Entries {
    if order == [] then s.indexData
    else
      var tn := order[|order| - 1];
      var before := RebuiltTables(d, s, order[..|order| - 1]);
      if tn !in d.tables || tn !in d.indexes then before
      else RebuiltTable(before, Lower(tn), d.indexes[tn], Builder(d.tables[tn].columns, GetRows(s, tn)))
  }

  lemma DistinctEntries(tn: Str, defs: seq<IndexDef>, i: nat, j: nat)
    requires DistinctNames(defs) && i < j < |defs|
    ensures EntryName(tn, defs[i].name) != EntryName(tn, defs[j].name)
  {
    EntryNamesAgree(tn, defs[i].name, defs[j].name);
  }

  lemma {:induction false} RebuiltEntry(data: Entries, tn: Str, defs: seq<IndexDef>, build: IndexDef -> Postings,
      i: nat)
    requires DistinctNames(defs) && i < |defs|
    ensures EntryName(tn, defs[i].name) in RebuiltTable(data, tn, defs, build)
    ensures RebuiltTable(data, tn, defs, build)[EntryName(tn, defs[i].name)] == build(defs[i])
  {
    if i < |defs| - 1 {
      RebuiltEntry(data, tn, defs[..|defs| - 1], build, i);
      DistinctEntries(tn, defs, i, |defs| - 1);
    }
  }

  lemma {:induction false} RebuiltElsewhere(data: Entries, tn: Str, defs: seq<IndexDef>, build: IndexDef -> Postings,
      e: Str)
    requires forall i :: 0 <= i < |defs| ==> e != EntryName(tn, defs[i].name)
    ensures SameAt(data, RebuiltTable(data, tn, defs, build), e)
  {
    if defs != [] {
      RebuiltElsewhere(data, tn, defs[..|defs| - 1], build, e);
    }
  }

  /** The entries of `tn` are those that its rows give. */
  ghost predicate IsRebuilt(d: DatabaseDef, s: Store, data: Entries, tn: Str)
    requires tn in d.tables && tn in d.indexes
  {
    forall i :: 0 <= i < |d.indexes[tn]| ==>
                  EntryName(tn, d.indexes[tn][i].name) in data
                  && data[EntryName(tn, d.indexes[tn][i].name)] == BuildIndex(d.indexes[tn][i], d.tables[tn].columns, GetRows(s, tn))
  }

  lemma OneTableRebuilt(d: DatabaseDef, s: Store, data: Entries, tn: Str)
    requires WellNamed(d) && tn in d.tables
    ensures IsRebuilt(d, s, RebuiltTable(data, tn, d.indexes[tn], Builder(d.tables[tn].columns, GetRows(s, tn))), tn)
  {
    forall i | 0 <= i < |d.indexes[tn]|
      ensures var after := RebuiltTable(data, tn, d.indexes[tn], Builder(d.tables[tn].columns, GetRows(s, tn)));
              EntryName(tn, d.indexes[tn][i].name) in after
              && after[EntryName(tn, d.indexes[tn][i].name)] == BuildIndex(d.indexes[tn][i], d.tables[tn].columns, GetRows(s, tn))
    {
      RebuiltEntry(data, tn, d.indexes[tn], Builder(d.tables[tn].columns, GetRows(s, tn)), i);
    }
  }

  lemma OtherTableStays(d: DatabaseDef, s: Store, data: Entries, build: IndexDef -> Postings, tn: Str, other: Str)
    requires WellNamed(d) && tn in d.tables && other in d.tables && tn != other && IsRebuilt(d, s, data, other)
    ensures IsRebuilt(d, s, RebuiltTable(data, tn, d.indexes[tn], build), other)
  {
    var after := RebuiltTable(data, tn, d.indexes[tn], build);
    forall i | 0 <= i < |d.indexes[other]| ensures SameAt(data, after, EntryName(other, d.indexes[other][i].name)) {
      var e := EntryName(other, d.indexes[other][i].name);
      forall k | 0 <= k < |d.indexes[tn]| ensures e != EntryName(tn, d.indexes[tn][k].name) {
        assert ListsApart(other, d.indexes[other], tn, d.indexes[tn]);
      }
      RebuiltElsewhere(data, tn, d.indexes[tn], build, e);
    }
  }

  lemma {:induction false} TablesRebuilt(d: DatabaseDef, s: Store, order: seq<Str>)
    requires WellNamed(d)
    ensures forall tn :: tn in order && tn in d.tables ==> IsRebuilt(d, s, RebuiltTables(d, s, order), tn)
  {
    if order != [] {
      var init, last := order[..|order| - 1], order[|order| - 1];
      var before, after := RebuiltTables(d, s, init), RebuiltTables(d, s, order);
      TablesRebuilt(d, s, init);
      if last in d.tables {
        OneTableRebuilt(d, s, before, last);
      }
      forall tn | tn in order && tn in d.tables ensures IsRebuilt(d, s, after, tn) {
        if tn != last {
          assert tn in init;
          if last in d.tables {
            OtherTableStays(d, s, before, Builder(d.tables[last].columns, GetRows(s, last)), last, tn);
          }
        }
      }
    }
  }

  /**
    * Whatever the index data held before, a rebuild that meets every table leaves every index in step with its table.
    */
  lemma RebuildBringsInStep(d: DatabaseDef, s: Store, order: seq<Str>, tn: Str)
    requires WellNamed(d) && WfStore(s)
    requires tn in order && tn in d.tables
    ensures TableInStep(d, s.(indexData := RebuiltTables(d, s, order)), tn)
  {
    var data := RebuiltTables(d, s, order);
    TablesRebuilt(d, s, order);
    TableIsWf(s, tn);
    ValuesOfWf(TableOf(s, tn), NextOf(s, tn));
    forall i | 0 <= i < |d.indexes[tn]|
      ensures InStep(data, EntryName(tn, d.indexes[tn][i].name), d.indexes[tn][i], d.tables[tn].columns, TableOf(s, tn))
    {
      assert IsRebuilt(d, s, data, tn);
      BuildIndexIsExact(d.indexes[tn][i], d.tables[tn].columns, TableOf(s, tn), GetRows(s, tn));
      ExactInStep(data, EntryName(tn, d.indexes[tn][i].name), d.indexes[tn][i], d.tables[tn].columns, TableOf(s, tn));
    }
  }

  /** Replaying the log of a run into a fresh state and rebuilding gives every index that the running engine had. */
  lemma FreshReplayRebuildsIndexes(db: Str, statements: seq<Statement>, platform: Platform, order: seq<Str>, tn: Str,
      i: nat)
    requires Tidy(db, statements, platform)
    ensures var e := Run(db, statements, platform);
            var image := ApplyAll(FreshImage, e.log);
            && SRRDB in e.defs.databases && SRRDB in image.defs.databases
            && var d := e.defs.databases[SRRDB];
            var data := RebuiltTables(image.defs.databases[SRRDB], image.store, order);
            tn in order && tn in d.tables && tn in d.indexes && i < |d.indexes[tn]| ==>
              && EntryName(tn, d.indexes[tn][i].name) in e.store.indexData && EntryName(tn, d.indexes[tn][i].name) in data
              && SameIndex(e.store.indexData[EntryName(tn, d.indexes[tn][i].name)], data[EntryName(tn, d.indexes[tn][i].name)])
  {
    ReplayRecoversRun(db, statements, platform);
    RunInStep(db, statements, platform);
    var e := Run(db, statements, platform);
    var image := ApplyAll(FreshImage, e.log);
    var d := e.defs.databases[SRRDB];
    InStepIsWellNamed(d, e.store);
    if tn in order && tn in d.tables && i < |d.indexes[tn]| {
      TablesRebuilt(d, image.store, order);
      assert IsRebuilt(d, image.store, RebuiltTables(d, image.store, order), tn);
      assert TableOf(image.store, tn) == TableOf(e.store, tn);
      MaintainedIsRebuilt(db, statements, platform, tn, i);
    }
  }
}
