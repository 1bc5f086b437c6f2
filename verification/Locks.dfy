/**
  * The lock discipline of `src/engine/executor.rs`: three mutexes, and the order in which every statement takes and
  * frees them.
  */
module Locks {
  import opened Prelude

  datatype Lock = CatalogLock | StorageLock | WalLock

  /** Nested acquisitions go catalog, storage, wal. */
  function Rank(l: Lock): nat {
    match l
    case CatalogLock => 0
    case StorageLock => 1
    case WalLock => 2
  }

  datatype Op = Acquire(lock: Lock) | Release(lock: Lock)

  type Script = seq<Op>

  /** What is held after the script, if it takes locks in order, never one it holds, and frees only what it holds. */
  function Held(script: Script, held: set<Lock>): Option<set<Lock>> {
    if script == [] then Some(held)
    else
      var l := script[0].lock;
      match script[0]
      case Acquire(_) =>
        if forall h | h in held :: Rank(h) < Rank(l) then Held(script[1..], held + {l}) else None
      case Release(_) =>
        if l in held then Held(script[1..], held - {l}) else None
  }

  predicate Disciplined(script: Script) {
    Held(script, {}) == Some({})
  }

  lemma {:induction false} HeldConcat(a: Script, b: Script, held: set<Lock>)
    requires Held(a, held).Some?
    ensures Held(a + b, held) == Held(b, Held(a, held).value)
  {
    if a == [] {
      assert a + b == b;
    } else {
      assert (a + b)[1..] == a[1..] + b;
      var l := a[0].lock;
      HeldConcat(a[1..], b, if a[0].Acquire? then held + {l} else held - {l});
    }
  }

  // ---- What the executor's calls do -----------------------------------------------------------------

  function Touch(l: Lock): Script {
    [Acquire(l), Release(l)]
  }

  function When(b: bool, s: Script): Script {
    if b then s else []
  }

  /**
    * The calls, with the outcomes on which their locking depends. `saves` is whether there is a persistence layer,
    * which makes `save` lock the catalog and `save_table` the storage.
    */
  datatype Call =
    | CreateTableCall(ifNotExists: bool, exists_: bool, fails: bool, saves: bool)
    | InsertCall(tableFound: bool, rowsOk: bool, hasIndexes: bool, saves: bool)
    | DeleteCall(tableFound: bool, hasRows: bool, changed: bool, saves: bool)
    | UpdateCall(tableFound: bool, assignmentsOk: bool, hasRows: bool, changed: bool, saves: bool)
    | SelectCall(hasFrom: bool, tableFound: bool)
    | CreateIndexCall(tableFound: bool, hasColumns: bool, created: bool, tableStill: bool, duplicate: bool, saves: bool)
    | DropIndexCall(indexFound: bool, ifExists: bool, exists_: bool, dropped: bool)
    | DropTableCall(ifExists: bool, exists_: bool, dropped: bool, saves: bool)
    | CreateDatabaseCall(ifNotExists: bool, exists_: bool, saves: bool)
    | DropDatabaseCall(ifExists: bool, exists_: bool, dropped: bool, saves: bool)
    | LookCall // USE, SHOW, DESCRIBE
    | RebuildCall(indexedTables: seq<nat>) // per database, how many tables with indexes

  function ScriptOf(call: Call): Script {
    match call
    case CreateTableCall(ine, exists_, fails, saves) =>
      When(ine, Touch(CatalogLock)) +
      When(!(ine && exists_),
           [Acquire(CatalogLock)] + Touch(WalLock) + [Release(CatalogLock)] + When(!fails && saves, Touch(CatalogLock)))
    case InsertCall(found, rowsOk, hasIndexes, saves) =>
      Touch(CatalogLock) +
      When(found && rowsOk,
           Touch(CatalogLock) + Touch(WalLock) + Touch(StorageLock) + When(saves, Touch(StorageLock)) +
           Touch(CatalogLock) + When(hasIndexes, Touch(StorageLock)))
    case DeleteCall(found, hasRows, changed, saves) =>
      Touch(CatalogLock) +
      When(found,
           [Acquire(StorageLock)] + When(hasRows && changed, Touch(WalLock)) + [Release(StorageLock)] +
           When(hasRows && saves, Touch(StorageLock)))
    case UpdateCall(found, ok, hasRows, changed, saves) =>
      Touch(CatalogLock) +
      When(found,
           Touch(CatalogLock) +
           When(ok,
                [Acquire(StorageLock)] + When(hasRows && changed, Touch(WalLock)) + [Release(StorageLock)] +
                When(hasRows && saves, Touch(StorageLock))))
    case SelectCall(hasFrom, found) =>
      When(hasFrom, Touch(CatalogLock) + When(found, Touch(StorageLock)))
    case CreateIndexCall(found, hasColumns, created, still, duplicate, saves) =>
      Touch(CatalogLock) +
      When(found && hasColumns,
           Touch(CatalogLock) +
           When(created,
                Touch(WalLock) + Touch(CatalogLock) +
                When(still,
                     Touch(StorageLock) + When(!duplicate && saves, Touch(StorageLock) + Touch(CatalogLock)))))
    case DropIndexCall(found, ifExists, exists_, dropped) =>
      Touch(CatalogLock) +
      When(found,
           When(ifExists, Touch(CatalogLock)) +
           When(!ifExists || exists_, Touch(CatalogLock) + When(dropped, Touch(WalLock) + Touch(StorageLock))))
    case DropTableCall(ifExists, exists_, dropped, saves) =>
      When(ifExists, Touch(CatalogLock)) +
      When(!ifExists || exists_,
           Touch(WalLock) + [Acquire(CatalogLock)] +
           (if dropped then
              [Acquire(StorageLock), Release(CatalogLock), Release(StorageLock)] + When(saves, Touch(CatalogLock))
            else [Release(CatalogLock)]))
    case CreateDatabaseCall(ine, exists_, saves) =>
      When(ine, Touch(CatalogLock)) + When(!(ine && exists_), Touch(CatalogLock) + When(saves, Touch(CatalogLock)))
    case DropDatabaseCall(ifExists, exists_, dropped, saves) =>
      When(ifExists, Touch(CatalogLock)) +
      When(!ifExists || exists_, Touch(CatalogLock) + When(dropped && saves, Touch(CatalogLock)))
    case LookCall => Touch(CatalogLock)
    case RebuildCall(counts) => Touch(CatalogLock) + RebuildScript(counts)
  }

  function RebuildScript(counts: seq<nat>): Script {
    if counts == [] then [] else Touch(CatalogLock) + TouchTimes(StorageLock, counts[0]) + RebuildScript(counts[1..])
  }

  function TouchTimes(l: Lock, n: nat): Script {
    if n == 0 then [] else Touch(l) + TouchTimes(l, n - 1)
  }

  lemma TouchKeeps(l: Lock, held: set<Lock>)
    requires forall h :: h in held ==> Rank(h) < Rank(l)
    ensures Held(Touch(l), held) == Some(held)
  {
    var s := Touch(l);
    assert s[1..] == [Release(l)] && s[1..][1..] == [];
    assert held + {l} - {l} == held;
    assert Held(s[1..], held + {l}) == Held(s[1..][1..], held + {l} - {l});
  }

  /** Two scripts that give back what they take, one after the other, do so too. */
  lemma BothKeep(a: Script, b: Script)
    requires Disciplined(a) && Disciplined(b)
    ensures Disciplined(a + b)
  {
    HeldConcat(a, b, {});
  }

  /** A lock held around a script that only takes higher ones. */
  lemma Bracketed(l: Lock, inner: Script)
    requires Held(inner, {l}) == Some({l})
    ensures Disciplined([Acquire(l)] + inner + [Release(l)])
  {
    var open := [Acquire(l)];
    assert open[1..] == [] && Held(open, {}) == Held([], {} + {l});
    assert {} + {l} == {l};
    HeldConcat(open, inner, {});
    HeldConcat(open + inner, [Release(l)], {});
    assert [Release(l)][1..] == [];
    assert Held([Release(l)], {l}) == Some({l} - {l});
  }

  lemma {:induction false} TouchTimesKeeps(l: Lock, n: nat)
    ensures Disciplined(TouchTimes(l, n))
  {
    if n > 0 {
      TouchKeeps(l, {});
      TouchTimesKeeps(l, n - 1);
      BothKeep(Touch(l), TouchTimes(l, n - 1));
    }
  }

  lemma {:induction false} RebuildKeeps(counts: seq<nat>)
    ensures Disciplined(RebuildScript(counts))
  {
    if counts != [] {
      TouchKeeps(CatalogLock, {});
      TouchTimesKeeps(StorageLock, counts[0]);
      RebuildKeeps(counts[1..]);
      BothKeep(Touch(CatalogLock), TouchTimes(StorageLock, counts[0]));
      BothKeep(Touch(CatalogLock) + TouchTimes(StorageLock, counts[0]), RebuildScript(counts[1..]));
    }
  }

  lemma SingleLocksKeep()
    ensures Disciplined(Touch(CatalogLock)) && Disciplined(Touch(StorageLock)) && Disciplined(Touch(WalLock)) && Disciplined([])
    ensures Held(Touch(WalLock), {CatalogLock}) == Some({CatalogLock})
    ensures Held(Touch(WalLock), {StorageLock}) == Some({StorageLock})
  {
    TouchKeeps(CatalogLock, {});
    TouchKeeps(StorageLock, {});
    TouchKeeps(WalLock, {});
    TouchKeeps(WalLock, {CatalogLock});
    TouchKeeps(WalLock, {StorageLock});
  }

  lemma FourKeep(a: Script, b: Script, c: Script, d: Script)
    requires Disciplined(a) && Disciplined(b) && Disciplined(c) && Disciplined(d)
    ensures Disciplined(a + b + c + d)
  {
    BothKeep(a, b);
    BothKeep(a + b, c);
    BothKeep(a + b + c, d);
  }

  /** DROP TABLE's nested locks, freed catalog first. */
  lemma HandOver()
    ensures Disciplined([Acquire(CatalogLock)] + [Acquire(StorageLock), Release(CatalogLock), Release(StorageLock)])
    ensures Disciplined([Acquire(CatalogLock)] + [Release(CatalogLock)])
  {
    var s := [Acquire(CatalogLock)] + [Acquire(StorageLock), Release(CatalogLock), Release(StorageLock)];
    assert s[1..] == [Acquire(StorageLock), Release(CatalogLock), Release(StorageLock)];
    assert s[1..][1..] == [Release(CatalogLock), Release(StorageLock)];
    assert s[1..][1..][1..] == [Release(StorageLock)];
    assert s[1..][1..][1..][1..] == [];
    var both: set<Lock> := {} + {CatalogLock} + {StorageLock};
    assert both - {CatalogLock} - {StorageLock} == {};
    assert Held(s[1..][1..][1..], both - {CatalogLock}) == Some({});
    assert Held(s[1..][1..], both) == Some({});
    assert Held(s[1..], {} + {CatalogLock}) == Some({});
    assert [Acquire(CatalogLock)] + [Release(CatalogLock)] == Touch(CatalogLock);
    TouchKeeps(CatalogLock, {});
  }

  lemma LoggedUnderStorage(logs: bool)
    ensures Disciplined([Acquire(StorageLock)] + When(logs, Touch(WalLock)) + [Release(StorageLock)])
  {
    SingleLocksKeep();
    Bracketed(StorageLock, When(logs, Touch(WalLock)));
  }

  lemma DropTableKeeps(ifExists: bool, exists_: bool, dropped: bool, saves: bool)
    ensures Disciplined(ScriptOf(DropTableCall(ifExists, exists_, dropped, saves)))
  {
    SingleLocksKeep();
    HandOver();
    var acquire: Script, rest: Script := [Acquire(CatalogLock)], [Acquire(StorageLock), Release(CatalogLock), Release(StorageLock)];
    var save := When(saves, Touch(CatalogLock));
    BothKeep(acquire + rest, save);
    assert acquire + (rest + save) == acquire + rest + save;
    var body := if dropped then rest + save else [Release(CatalogLock)];
    BothKeep(Touch(WalLock), acquire + body);
    assert Touch(WalLock) + (acquire + body) == Touch(WalLock) + acquire + body;
    BothKeep(When(ifExists, Touch(CatalogLock)), When(!ifExists || exists_, Touch(WalLock) + acquire + body));
  }

  lemma RowCallsKeep(call: Call)
    requires call.InsertCall? || call.DeleteCall? || call.UpdateCall? || call.SelectCall?
    ensures Disciplined(ScriptOf(call))
  {
    SingleLocksKeep();
    var cat, sto, wal := Touch(CatalogLock), Touch(StorageLock), Touch(WalLock);
    match call {
      case InsertCall(found, rowsOk, hasIndexes, saves) =>
        FourKeep(cat, wal, sto, When(saves, sto));
        BothKeep(cat + wal + sto + When(saves, sto), cat);
        BothKeep(cat + wal + sto + When(saves, sto) + cat, When(hasIndexes, sto));
        BothKeep(cat, When(found && rowsOk, cat + wal + sto + When(saves, sto) + cat + When(hasIndexes, sto)));
      case DeleteCall(found, hasRows, changed, saves) =>
        LoggedUnderStorage(hasRows && changed);
        var section := [Acquire(StorageLock)] + When(hasRows && changed, wal) + [Release(StorageLock)];
        BothKeep(section, When(hasRows && saves, sto));
        BothKeep(cat, When(found, section + When(hasRows && saves, sto)));
      case UpdateCall(found, ok, hasRows, changed, saves) =>
        LoggedUnderStorage(hasRows && changed);
        var section := [Acquire(StorageLock)] + When(hasRows && changed, wal) + [Release(StorageLock)];
        BothKeep(section, When(hasRows && saves, sto));
        BothKeep(cat, When(ok, section + When(hasRows && saves, sto)));
        BothKeep(cat, When(found, cat + When(ok, section + When(hasRows && saves, sto))));
      case SelectCall(hasFrom, found) =>
        BothKeep(cat, When(found, sto));
    }
  }

  lemma DefinitionCallsKeep(call: Call)
    requires call.CreateTableCall? || call.CreateIndexCall? || call.DropIndexCall? || call.CreateDatabaseCall? || call.DropDatabaseCall?
    ensures Disciplined(ScriptOf(call))
  {
    SingleLocksKeep();
    var cat, sto, wal := Touch(CatalogLock), Touch(StorageLock), Touch(WalLock);
    match call {
      case CreateTableCall(ine, exists_, fails, saves) =>
        Bracketed(CatalogLock, wal);
        var section := [Acquire(CatalogLock)] + wal + [Release(CatalogLock)];
        BothKeep(section, When(!fails && saves, cat));
        BothKeep(When(ine, cat), When(!(ine && exists_), section + When(!fails && saves, cat)));
      case CreateIndexCall(found, hasColumns, created, still, duplicate, saves) =>
        BothKeep(sto, cat);
        BothKeep(sto, When(!duplicate && saves, sto + cat));
        BothKeep(wal, cat);
        BothKeep(wal + cat, When(still, sto + When(!duplicate && saves, sto + cat)));
        BothKeep(cat, When(created, wal + cat + When(still, sto + When(!duplicate && saves, sto + cat))));
        BothKeep(cat, When(found && hasColumns, cat + When(created, wal + cat + When(still, sto + When(!duplicate && saves, sto + cat)))));
      case DropIndexCall(found, ifExists, exists_, dropped) =>
        BothKeep(wal, sto);
        BothKeep(cat, When(dropped, wal + sto));
        BothKeep(When(ifExists, cat), When(!ifExists || exists_, cat + When(dropped, wal + sto)));
        BothKeep(cat, When(found, When(ifExists, cat) + When(!ifExists || exists_, cat + When(dropped, wal + sto))));
      case CreateDatabaseCall(ine, exists_, saves) =>
        BothKeep(cat, When(saves, cat));
        BothKeep(When(ine, cat), When(!(ine && exists_), cat + When(saves, cat)));
      case DropDatabaseCall(ifExists, exists_, dropped, saves) =>
        BothKeep(cat, When(dropped && saves, cat));
        BothKeep(When(ifExists, cat), When(!ifExists || exists_, cat + When(dropped && saves, cat)));
    }
  }

  /** Every call of the executor, on every outcome, takes its locks in rank order and frees them all. */
  lemma EveryCallIsDisciplined(call: Call)
    ensures Disciplined(ScriptOf(call))
  {
    SingleLocksKeep();
    match call {
      case DropTableCall(ifExists, exists_, dropped, saves) => DropTableKeeps(ifExists, exists_, dropped, saves);
      case RebuildCall(counts) =>
        RebuildKeeps(counts);
        BothKeep(Touch(CatalogLock), RebuildScript(counts));
      case LookCall =>
      case InsertCall(_, _, _, _) => RowCallsKeep(call);
      case DeleteCall(_, _, _, _) => RowCallsKeep(call);
      case UpdateCall(_, _, _, _, _) => RowCallsKeep(call);
      case SelectCall(_, _) => RowCallsKeep(call);
      case _ => DefinitionCallsKeep(call);
    }
  }

  function ScriptOfAll(calls: seq<Call>): Script {
    if calls == [] then [] else ScriptOf(calls[0]) + ScriptOfAll(calls[1..])
  }

  lemma {:induction false} AllCallsDisciplined(calls: seq<Call>)
    ensures Disciplined(ScriptOfAll(calls))
  {
    if calls != [] {
      EveryCallIsDisciplined(calls[0]);
      AllCallsDisciplined(calls[1..]);
      BothKeep(ScriptOf(calls[0]), ScriptOfAll(calls[1..]));
    }
  }

  // ---- Threads over three mutexes ----------------------------------------------------------------------

  /** What a thread holds and what it has still to do. */
  datatype Thread = Thread(held: set<Lock>, rest: Script)

  type Threads = seq<Thread>

  predicate Taken(ts: Threads, l: Lock) {
    exists i :: 0 <= i < |ts| && l in ts[i].held
  }

  /** A thread can go on unless it wants a mutex that is taken (by itself included). */
  predicate CanStep(ts: Threads, i: nat) {
    i < |ts| && ts[i].rest != [] && (ts[i].rest[0].Acquire? ==> !Taken(ts, ts[i].rest[0].lock))
  }

  function StepThread(ts: Threads, i: nat): Threads
    requires CanStep(ts, i)
  {
    var t, l := ts[i], ts[i].rest[0].lock;
    ts[i := Thread(if t.rest[0].Acquire? then t.held + {l} else t.held - {l}, t.rest[1..])]
  }

  function Started(work: seq<seq<Call>>): Threads {
    seq(|work|, i requires 0 <= i < |work| => Thread({}, ScriptOfAll(work[i])))
  }

  ghost predicate LocksOk(ts: Threads) {
    && (forall i :: 0 <= i < |ts| ==> Held(ts[i].rest, ts[i].held) == Some({}))
    && (forall i, j :: 0 <= i < j < |ts| ==> ts[i].held !! ts[j].held)
  }

  /** From any unfinished thread, following who holds what it waits for leads to a thread that can step. */
  lemma {:induction false} Unblock(ts: Threads, i: nat) returns (j: nat)
    requires LocksOk(ts) && i < |ts| && ts[i].rest != []
    ensures CanStep(ts, j)
    decreases 3 - Rank(ts[i].rest[0].lock)
  {
    if CanStep(ts, i) {
      j := i;
    } else {
      var l := ts[i].rest[0].lock;
      var k :| 0 <= k < |ts| && l in ts[k].held;
      assert ts[k].rest != [];
      if CanStep(ts, k) {
        j := k;
      } else {
        assert Rank(l) < Rank(ts[k].rest[0].lock);
        j := Unblock(ts, k);
      }
    }
  }

  lemma StepKeepsLocksOk(ts: Threads, i: nat)
    requires LocksOk(ts) && CanStep(ts, i)
    ensures LocksOk(StepThread(ts, i))
  {
    var after := StepThread(ts, i);
    forall j, k | 0 <= j < k < |ts| ensures after[j].held !! after[k].held {
      assert ts[j].held !! ts[k].held;
      if ts[i].rest[0].Acquire? && (j == i || k == i) {
        var other := if j == i then k else j;
        assert ts[i].rest[0].lock !in ts[other].held;
      }
    }
  }

  ghost predicate Interleaving(ts: Threads, order: seq<nat>)
    decreases |order|
  {
    order == [] || (CanStep(ts, order[0]) && Interleaving(StepThread(ts, order[0]), order[1..]))
  }

  ghost function AfterSteps(ts: Threads, order: seq<nat>): Threads
    requires Interleaving(ts, order)
    decreases |order|
  {
    if order == [] then ts else AfterSteps(StepThread(ts, order[0]), order[1..])
  }

  lemma {:induction false} InterleavingKeepsLocksOk(ts: Threads, order: seq<nat>)
    requires LocksOk(ts) && Interleaving(ts, order)
    ensures LocksOk(AfterSteps(ts, order))
    decreases |order|
  {
    if order != [] {
      StepKeepsLocksOk(ts, order[0]);
      InterleavingKeepsLocksOk(StepThread(ts, order[0]), order[1..]);
    }
  }

  lemma StartedIsOk(work: seq<seq<Call>>)
    ensures LocksOk(Started(work))
  {
    forall i | 0 <= i < |work| ensures Held(Started(work)[i].rest, Started(work)[i].held) == Some({}) {
      AllCallsDisciplined(work[i]);
    }
  }

  /**
    * No deadlock: whatever the threads were asked to do and however they were interleaved, while one is unfinished one
    * can step.
    */
  lemma NoDeadlock(work: seq<seq<Call>>, order: seq<nat>, i: nat) returns (j: nat)
    requires Interleaving(Started(work), order)
    requires i < |AfterSteps(Started(work), order)| && AfterSteps(Started(work), order)[i].rest != []
    ensures CanStep(AfterSteps(Started(work), order), j)
  {
    StartedIsOk(work);
    InterleavingKeepsLocksOk(Started(work), order);
    j := Unblock(AfterSteps(Started(work), order), i);
  }

  function WorkLeft(ts: Threads): nat {
    if ts == [] then 0 else WorkLeft(ts[..|ts| - 1]) + |ts[|ts| - 1].rest|
  }

  lemma {:induction false} StepDoesWork(ts: Threads, i: nat, after: Threads)
    requires i < |ts| && |after| == |ts| && |after[i].rest| + 1 == |ts[i].rest|
    requires forall j :: 0 <= j < |ts| && j != i ==> after[j] == ts[j]
    ensures WorkLeft(after) + 1 == WorkLeft(ts)
  {
    var n := |ts| - 1;
    if i == n {
      assert after[..n] == ts[..n];
    } else {
      StepDoesWork(ts[..n], i, after[..n]);
    }
  }

  /** No livelock either: every interleaving is as long as the work it has done, so it ends when the work does. */
  lemma {:induction false} EveryInterleavingEnds(ts: Threads, order: seq<nat>)
    requires Interleaving(ts, order)
    ensures |AfterSteps(ts, order)| == |ts|
    ensures |order| + WorkLeft(AfterSteps(ts, order)) == WorkLeft(ts)
    decreases |order|
  {
    if order != [] {
      StepDoesWork(ts, order[0], StepThread(ts, order[0]));
      EveryInterleavingEnds(StepThread(ts, order[0]), order[1..]);
    }
  }
}
