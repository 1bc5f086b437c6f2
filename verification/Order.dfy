/** Total orders: the comparison of sequences, and the traversal of a set in increasing order. */
module Order {
  import opened Prelude

  datatype Ordering = Less | Equal | Greater {
    function Reverse(): Ordering {
      match this
      case Less => Greater
      case Equal => Equal
      case Greater => Less
    }
  }

  /** What Rust's `Ord` demands of `cmp`, with `Equal` meaning identity. */
  ghost predicate Lawful<T(!new)>(cmp: (T, T) -> Ordering) {
    && (forall a, b :: cmp(a, b) == Equal <==> a == b)
    && (forall a, b :: cmp(b, a) == cmp(a, b).Reverse())
    && (forall a, b, c :: cmp(a, b) == Less && cmp(b, c) == Less ==> cmp(a, c) == Less)
  }

  function IntCmp(a: int, b: int): Ordering {
    if a < b then Less else if a == b then Equal else Greater
  }

  function ByteCmp(a: byte, b: byte): Ordering {
    IntCmp(a, b)
  }

  lemma ByteCmpIsLawful()
    ensures Lawful(ByteCmp)
  {
  }

  /** Comparison of slices and vectors: the first difference decides, a proper prefix is smaller. */
  function SeqCmp<T>(a: seq<T>, b: seq<T>, cmp: (T, T) -> Ordering): Ordering {
    if a == [] && b == [] then Equal
    else if a == [] then Less
    else if b == [] then Greater
    else
      match cmp(a[0], b[0])
      case Less => Less
      case Greater => Greater
      case Equal => SeqCmp(a[1..], b[1..], cmp)
  }

  lemma {:induction false} SeqCmpEqual<T(!new)>(a: seq<T>, b: seq<T>, cmp: (T, T) -> Ordering)
    requires Lawful(cmp)
    ensures SeqCmp(a, b, cmp) == Equal <==> a == b
    ensures SeqCmp(b, a, cmp) == SeqCmp(a, b, cmp).Reverse()
  {
    if a != [] && b != [] {
      assert a == [a[0]] + a[1..] && b == [b[0]] + b[1..];
      SeqCmpEqual(a[1..], b[1..], cmp);
    }
  }

  lemma {:induction false} SeqCmpTransitive<T(!new)>(a: seq<T>, b: seq<T>, c: seq<T>, cmp: (T, T) -> Ordering)
    requires Lawful(cmp)
    requires SeqCmp(a, b, cmp) == Less && SeqCmp(b, c, cmp) == Less
    ensures SeqCmp(a, c, cmp) == Less
  {
    if a != [] && b != [] && c != [] && cmp(a[0], b[0]) == Equal && cmp(b[0], c[0]) == Equal {
      SeqCmpTransitive(a[1..], b[1..], c[1..], cmp);
    }
  }

  ghost predicate TotalOrder<K(!new)>(le: (K, K) -> bool) {
    && (forall a :: le(a, a))
    && (forall a, b :: le(a, b) || le(b, a))
    && (forall a, b :: le(a, b) && le(b, a) ==> a == b)
    && (forall a, b, c :: le(a, b) && le(b, c) ==> le(a, c))
  }

  lemma LeastOfMore<K(!new)>(rest: set<K>, x: K, m: K, le: (K, K) -> bool)
    requires TotalOrder(le) && forall y | y in rest :: le(m, y)
    ensures forall y | y in rest + {x} :: le(if le(x, m) then x else m, y)
  {
  }

  lemma {:induction false} LeastExists<K(!new)>(s: set<K>, le: (K, K) -> bool)
    requires TotalOrder(le) && s != {}
    ensures exists m :: m in s && forall y | y in s :: le(m, y)
  {
    var x :| x in s;
    var rest := s - {x};
    assert s == rest + {x};
    if rest == {} {
      assert x in s && forall y | y in s :: le(x, y);
    } else {
      LeastExists(rest, le);
      var m :| m in rest && forall y | y in rest :: le(m, y);
      LeastOfMore(rest, x, m, le);
      assert (if le(x, m) then x else m) in s;
    }
  }

  /** The elements of `s` in increasing order: how a BTreeMap is iterated. */
  function Ascending<K(!new, ==)>(s: set<K>, le: (K, K) -> bool): (r: seq<K>)
    requires TotalOrder(le)
    ensures |r| == |s|
    ensures forall k :: k in r <==> k in s
    ensures forall i, j :: 0 <= i < j < |r| ==> r[i] != r[j] && le(r[i], r[j])
    decreases |s|
  {
    if s == {} then []
    else
      LeastExists(s, le);
      var m :| m in s && forall y | y in s :: le(m, y);
      [m] + Ascending(s - {m}, le)
  }

  function NatLe(a: nat, b: nat): bool { a <= b }

  lemma NatLeIsTotal()
    ensures TotalOrder(NatLe)
  {
  }


  function StrCmp(a: Str, b: Str): Ordering {
    SeqCmp(a, b, ByteCmp)
  }

  lemma StrCmpIsLawful()
    ensures Lawful(StrCmp)
  {
    ByteCmpIsLawful();
    forall a: Str, b: Str ensures (StrCmp(a, b) == Equal <==> a == b) && StrCmp(b, a) == StrCmp(a, b).Reverse() {
      SeqCmpEqual(a, b, ByteCmp);
    }
    forall a: Str, b: Str, c: Str | StrCmp(a, b) == Less && StrCmp(b, c) == Less ensures StrCmp(a, c) == Less {
      SeqCmpTransitive(a, b, c, ByteCmp);
    }
  }

  function StrLe(a: Str, b: Str): bool {
    StrCmp(a, b) != Greater
  }

  lemma StrLeIsTotal()
    ensures TotalOrder(StrLe)
  {
    StrCmpIsLawful();
  }
}
