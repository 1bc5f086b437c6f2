/** `src/engine/index.rs`: posting lists, their maintenance and the three lookups. */
module Index {
  import opened Prelude
  import opened Order
  import opened Types

  datatype IndexType = BTree | Hash

  datatype IndexDef = IndexDef(name: Str, indexType: IndexType, tableName: Str, columns: seq<Str>, unique: bool)

  /** The value of one index: the row ids filed under each key. */
  datatype Postings = Postings(kind: IndexType, lists: map<Key, seq<nat>>)

  function Ids(ix: Postings, key: Key): seq<nat> {
    if key in ix.lists then ix.lists[key] else []
  }

  function Add(ix: Postings, key: Key, id: nat): Postings {
    ix.(lists := ix.lists[key := Ids(ix, key) + [id]])
  }

  function Differs(id: nat): nat -> bool {
    (x: nat) => x != id
  }

  /** Drops every copy of `id` under `key`, and the entry itself once it is empty. */
  function Remove(ix: Postings, key: Key, id: nat): Postings {
    var kept := Filter(Ids(ix, key), Differs(id));
    if key !in ix.lists then ix
    else if kept == [] then ix.(lists := ix.lists - {key})
    else ix.(lists := ix.lists[key := kept])
  }

  ghost predicate NoEmptyList(ix: Postings) {
    forall k :: k in ix.lists ==> ix.lists[k] != []
  }

  lemma AddEffect(ix: Postings, key: Key, id: nat)
    ensures forall k :: Ids(Add(ix, key, id), k) == if k == key then Ids(ix, k) + [id] else Ids(ix, k)
    ensures NoEmptyList(ix) ==> NoEmptyList(Add(ix, key, id))
  {
  }

  lemma RemoveEffect(ix: Postings, key: Key, id: nat)
    ensures forall k, x :: x in Ids(Remove(ix, key, id), k) <==> x in Ids(ix, k) && !(k == key && x == id)
    ensures forall k :: NoDup(Ids(ix, k)) ==> NoDup(Ids(Remove(ix, key, id), k))
    ensures NoEmptyList(ix) ==> NoEmptyList(Remove(ix, key, id))
  {
    FilterMembers(Ids(ix, key), Differs(id));
  }

  lemma LastCopyFiltered(before: seq<nat>, id: nat)
    requires id !in before
    ensures Filter(before + [id], Differs(id)) == before
  {
    FilterKeepsAll(before, Differs(id));
    assert (before + [id])[..|before|] == before;
  }

  /** What INSERT filed, DELETE takes out again: the pair leaves an index without that id as it was. */
  lemma AddThenRemove(ix: Postings, key: Key, id: nat)
    requires NoEmptyList(ix) && id !in Ids(ix, key)
    ensures Remove(Add(ix, key, id), key, id) == ix
  {
    LastCopyFiltered(Ids(ix, key), id);
    var lists := Remove(Add(ix, key, id), key, id).lists;
    assert lists.Keys == ix.lists.Keys;
    assert forall k :: k in ix.lists ==> lists[k] == ix.lists[k];
  }

  // ---- Range and prefix scans ----------------------------------------------

  datatype Bound = Unbounded | Included(key: Key) | Excluded(key: Key)

  predicate AboveLow(lo: Bound, k: Key) {
    match lo
    case Unbounded => true
    case Included(l) => KeyCmp(l, k) != Greater
    case Excluded(l) => KeyCmp(l, k) == Less
  }

  predicate BelowHigh(k: Key, hi: Bound) {
    match hi
    case Unbounded => true
    case Included(h) => KeyCmp(k, h) != Greater
    case Excluded(h) => KeyCmp(k, h) == Less
  }

  function Between(lo: Bound, hi: Bound): Key -> bool {
    (k: Key) => AboveLow(lo, k) && BelowHigh(k, hi)
  }

  /** The lists of the keys that are wanted, in the order of `keys`. */
  function Collect<K>(keys: seq<K>, lists: map<K, seq<nat>>, wanted: K -> bool): seq<nat>
    requires forall k :: k in keys ==> k in lists
  {
    if keys == [] then []
    else
      var k := keys[|keys| - 1];
      Collect(keys[..|keys| - 1], lists, wanted) + if wanted(k) then lists[k] else []
  }

  lemma {:induction false} CollectMembers<K>(keys: seq<K>, lists: map<K, seq<nat>>, wanted: K -> bool, id: nat)
    requires forall k :: k in keys ==> k in lists
    ensures id in Collect(keys, lists, wanted) <==> exists k :: k in keys && wanted(k) && id in lists[k]
  {
    if keys != [] {
      var p, last := keys[..|keys| - 1], keys[|keys| - 1];
      CollectMembers(p, lists, wanted, id);
      assert keys == p + [last];
      forall k | k in keys ensures k in p || k == last { }
    }
  }

  function SortedKeys(ix: Postings): (keys: seq<Key>)
    ensures forall k :: k in keys <==> k in ix.lists
    ensures forall i, j :: 0 <= i < j < |keys| ==> KeyCmp(keys[i], keys[j]) == Less
  {
    KeyLeIsTotal();
    KeyCmpIsLawful();
    Ascending(ix.lists.Keys, KeyLe)
  }

  /** `map.range(..)`, flattened. `None` is the panic of a start above its end; a hash index answers nothing. */
  function Range(ix: Postings, lo: Bound, hi: Bound): Option<seq<nat>> {
    if ix.kind == Hash then Some([])
    else if !lo.Unbounded? && !hi.Unbounded? && KeyCmp(lo.key, hi.key) == Greater then None
    else Some(Collect(SortedKeys(ix), ix.lists, Between(lo, hi)))
  }

  function InclusiveBound(key: Option<Key>): Bound {
    match key
    case None => Unbounded
    case Some(k) => Included(k)
  }

  function LookupRange(ix: Postings, low: Option<Key>, high: Option<Key>): Option<seq<nat>> {
    Range(ix, InclusiveBound(low), InclusiveBound(high))
  }

  predicate Within(k: Key, low: Option<Key>, high: Option<Key>) {
    (low.Some? ==> KeyCmp(low.value, k) != Greater) && (high.Some? ==> KeyCmp(k, high.value) != Greater)
  }

  /**
    * `lookup_range` panics exactly on a B-tree for bounds in the wrong order; else it returns the ids of exactly the
    * keys within, a hash index none.
    */
  lemma LookupRangeExact(ix: Postings, low: Option<Key>, high: Option<Key>)
    ensures LookupRange(ix, low, high) == None
       <==> ix.kind == BTree && low.Some? && high.Some? && KeyCmp(low.value, high.value) == Greater
    ensures LookupRange(ix, low, high).Some? ==>
              forall id :: id in LookupRange(ix, low, high).value
                           <==> ix.kind == BTree && exists k :: k in ix.lists && Within(k, low, high) && id in ix.lists[k]
  {
    if ix.kind == BTree && LookupRange(ix, low, high).Some? {
      forall id ensures id in LookupRange(ix, low, high).value <==> exists k :: k in ix.lists && Within(k, low, high) && id in ix.lists[k] {
        CollectedWithin(SortedKeys(ix), ix.lists, low, high, id);
      }
    }
  }

  lemma CollectedWithin(keys: seq<Key>, lists: map<Key, seq<nat>>, low: Option<Key>, high: Option<Key>, id: nat)
    requires forall k :: k in keys <==> k in lists
    ensures id in Collect(keys, lists, Between(InclusiveBound(low), InclusiveBound(high)))
       <==> exists k :: k in lists && Within(k, low, high) && id in lists[k]
  {
    var lo, hi := InclusiveBound(low), InclusiveBound(high);
    CollectMembers(keys, lists, Between(lo, hi), id);
    forall k: Key ensures Within(k, low, high) <==> AboveLow(lo, k) && BelowHigh(k, hi) { }
  }

  function BumpValue(v: Value, platform: Platform): Value {
    match v
    case Null => Null
    case Int(n) => Int(if n < 0x7FFF_FFFF_FFFF_FFFF then n + 1 else n)
    case UInt(n) => UInt(if n < 0xFFFF_FFFF_FFFF_FFFF then n + 1 else n)
    case Float(n) => Float((platform.next32)(n))
    case Double(n) => Double((platform.next64)(n))
    case Bytes(b) => Bytes(b + [0])
    case Text(t) => Text(t + [0])
  }

  function BumpKey(prefix: Key, platform: Platform): Key {
    if prefix == [] then [] else prefix[|prefix| - 1 := BumpValue(prefix[|prefix| - 1], platform)]
  }

  function LookupPrefix(ix: Postings, prefix: Key, platform: Platform): Option<seq<nat>> {
    Range(ix, Included(prefix), Excluded(BumpKey(prefix, platform)))
  }

  /** `bump_value` really moves the last component of such a prefix. */
  predicate Bumpable(prefix: Key) {
    && prefix != []
    && match prefix[|prefix| - 1]
       case Null => false
       case Int(n) => n < 0x7FFF_FFFF_FFFF_FFFF
       case UInt(n) => n < 0xFFFF_FFFF_FFFF_FFFF
       case Float(_) => false
       case Double(_) => false
       case Bytes(_) => true
       case Text(_) => true
  }

  lemma {:induction false} AppendZeroIsNext(s: Str, x: Str)
    ensures StrCmp(s, x) != Greater && StrCmp(x, s + [0]) == Less <==> x == s
  {
    if s != [] && x != [] {
      assert (s + [0])[1..] == s[1..] + [0];
      assert s == [s[0]] + s[1..] && x == [x[0]] + x[1..];
      AppendZeroIsNext(s[1..], x[1..]);
    } else if x != [] {
      var next := s + [0];
      assert next[1..] == [];
      assert SeqCmp(x[1..], next[1..], ByteCmp) != Less;
    }
  }

  /** `bump_value` is the immediate successor in the order of values. */
  lemma BumpIsNext(v: Value, x: Value, platform: Platform)
    requires Bumpable([v])
    ensures ValueCmp(v, x) != Greater && ValueCmp(x, BumpValue(v, platform)) == Less <==> x == v
  {
    ValueCmpReverses(v, x);
    match v {
      case Bytes(b) => if x.Bytes? { AppendZeroIsNext(b, x.b); }
      case Text(t) => if x.Text? { AppendZeroIsNext(t, x.t); }
      case _ =>
    }
  }

  ghost predicate InPrefixRange(k: Key, prefix: Key, platform: Platform) {
    AboveLow(Included(prefix), k) && BelowHigh(k, Excluded(BumpKey(prefix, platform)))
  }

  lemma {:induction false} PrefixRange(k: Key, prefix: Key, platform: Platform)
    requires Bumpable(prefix)
    ensures InPrefixRange(k, prefix, platform) <==> StartsWith(k, prefix)
  {
    ValueCmpIsLawful();
    var bumped := BumpKey(prefix, platform);
    if k == [] {
    } else if |prefix| == 1 {
      BumpIsNext(prefix[0], k[0], platform);
      assert prefix == [prefix[0]] && bumped == [BumpValue(prefix[0], platform)];
      assert k[..1] == [k[0]];
      assert SeqCmp(prefix[1..], k[1..], ValueCmp) != Greater;
      assert SeqCmp(k[1..], bumped[1..], ValueCmp) != Less;
    } else {
      assert bumped[1..] == BumpKey(prefix[1..], platform);
      PrefixRange(k[1..], prefix[1..], platform);
      assert k == [k[0]] + k[1..] && prefix == [prefix[0]] + prefix[1..];
      if StartsWith(k, prefix) {
        assert k[0] == k[..|prefix|][0];
        assert k[1..][..|prefix| - 1] == k[..|prefix|][1..];
      }
    }
  }

  /** For prefixes that do not end in a float, the half-open range is exact precisely when the bump moves the prefix. */
  lemma PrefixRangeExact(prefix: Key, platform: Platform)
    requires prefix == [] || !(prefix[|prefix| - 1].Float? || prefix[|prefix| - 1].Double?)
    ensures (forall k :: InPrefixRange(k, prefix, platform) <==> StartsWith(k, prefix)) <==> Bumpable(prefix)
  {
    if Bumpable(prefix) {
      forall k ensures InPrefixRange(k, prefix, platform) <==> StartsWith(k, prefix) {
        PrefixRange(k, prefix, platform);
      }
    } else {
      assert BumpKey(prefix, platform) == prefix;
      KeyCmpIsLawful();
      assert StartsWith(prefix, prefix);
      assert !InPrefixRange(prefix, prefix, platform);
    }
  }

  /** `lookup_prefix` on a B-tree returns the ids of exactly the keys that start with the prefix. */
  lemma LookupPrefixExact(ix: Postings, prefix: Key, platform: Platform)
    requires ix.kind == BTree && Bumpable(prefix)
    ensures LookupPrefix(ix, prefix, platform).Some?
    ensures forall id :: id in LookupPrefix(ix, prefix, platform).value
                         <==> exists k :: k in ix.lists && StartsWith(k, prefix) && id in ix.lists[k]
  {
    var bumped := BumpKey(prefix, platform);
    KeyCmpIsLawful();
    PrefixRange(prefix, prefix, platform);
    assert StartsWith(prefix, prefix);
    var keys := SortedKeys(ix);
    forall id ensures id in LookupPrefix(ix, prefix, platform).value
                 <==> exists k :: k in ix.lists && StartsWith(k, prefix) && id in ix.lists[k] {
      CollectMembers(keys, ix.lists, Between(Included(prefix), Excluded(bumped)), id);
      forall k | k in ix.lists ensures InPrefixRange(k, prefix, platform) <==> StartsWith(k, prefix) {
        PrefixRange(k, prefix, platform);
      }
    }
  }

  // ---- The structure that is updated in place ------------------------------

  class IndexData {
    const kind: IndexType
    var lists: map<Key, seq<nat>>

    ghost function View(): Postings
      reads this
    {
      Postings(kind, lists)
    }

    constructor (kind: IndexType)
      ensures View() == Postings(kind, map[])
    {
      this.kind, lists := kind, map[];
    }

    /** Takes over an index value held elsewhere (`get_mut` on the map that owns it). */
    constructor Of(ix: Postings)
      ensures View() == ix
    {
      kind, lists := ix.kind, ix.lists;
    }

    method Insert(key: Key, id: nat)
      modifies this
      ensures View() == Add(old(View()), key, id)
    {
      if key !in lists {
        lists := lists[key := []];
      }
      lists := lists[key := lists[key] + [id]];
      assert lists == Add(old(View()), key, id).lists;
    }

    method Delete(key: Key, id: nat)
      modifies this
      ensures View() == Remove(old(View()), key, id)
    {
      if key in lists {
        var kept: seq<nat> := [];
        var posting := lists[key];
        for i := 0 to |posting|
          invariant lists == old(lists)
          invariant kept == Filter(posting[..i], Differs(id))
        {
          assert posting[..i + 1][..i] == posting[..i];
          if posting[i] != id {
            kept := kept + [posting[i]];
          }
        }
        assert posting[..|posting|] == posting;
        lists := if kept == [] then lists - {key} else lists[key := kept];
      }
    }

    method LookupEq(key: Key) returns (ids: seq<nat>)
      ensures ids == Ids(View(), key)
    {
      ids := if key in lists then lists[key] else [];
    }

    method Clear()
      modifies this
      ensures View() == Postings(kind, map[])
    {
      lists := map[];
    }
  }
}
