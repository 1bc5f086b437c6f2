/** Bytes, names, results and the ordered traversal of sets that the other modules share. */
module Prelude {

  type byte = n: int | 0 <= n < 256
  type u16 = n: int | 0 <= n < 0x1_0000
  type u32 = n: int | 0 <= n < 0x1_0000_0000
  type u64 = n: int | 0 <= n < 0x1_0000_0000_0000_0000
  type i64 = n: int | -0x8000_0000_0000_0000 <= n < 0x8000_0000_0000_0000

  /** A Rust string as its bytes. */
  type Str = seq<byte>

  /** `Option`, usable with `:-`. */
  datatype Option<+T> = None | Some(value: T) {
    predicate IsFailure() { None? }

    function PropagateFailure<U>(): Option<U>
      requires None?
    {
      None
    }

    function Extract(): T
      requires Some?
    {
      value
    }
  }

  datatype Result<+T, +E> = Ok(value: T) | Err(error: E)

  // ---- Names -------------------------------------------------------------

  function LowerByte(b: byte): byte {
    if 65 <= b <= 90 then b + 32 else b
  }

  /** `to_lowercase` on ASCII names; two names are `eq_ignore_ascii_case` when their images agree. */
  function Lower(s: Str): (r: Str)
    ensures |r| == |s|
  {
    seq(|s|, i requires 0 <= i < |s| => LowerByte(s[i]))
  }

  lemma LowerIdempotent(s: Str)
    ensures Lower(Lower(s)) == Lower(s)
  {
  }

  predicate SameName(a: Str, b: Str) {
    Lower(a) == Lower(b)
  }

  const COLON: byte := 58

  /** The text "srrdb": the name of the database that always exists. */
  const SRRDB: Str := [115, 114, 114, 100, 98]

  // ---- Prefixes ----------------------------------------------------------

  predicate StartsWith<T(==)>(s: seq<T>, p: seq<T>) {
    |p| <= |s| && s[..|p|] == p
  }

  // ---- Sequences ---------------------------------------------------------

  predicate NoDup<T(==)>(s: seq<T>) {
    forall i, j :: 0 <= i < j < |s| ==> s[i] != s[j]
  }

  function Filter<T>(s: seq<T>, keep: T -> bool): (r: seq<T>)
    ensures |r| <= |s|
  {
    if s == [] then []
    else
      var r := Filter(s[..|s| - 1], keep);
      if keep(s[|s| - 1]) then r + [s[|s| - 1]] else r
  }

  lemma {:induction false} FilterMembers<T>(s: seq<T>, keep: T -> bool)
    ensures forall x :: x in Filter(s, keep) <==> x in s && keep(x)
    ensures NoDup(s) ==> NoDup(Filter(s, keep))
  {
    if s != [] {
      var p := s[..|s| - 1];
      FilterMembers(p, keep);
      assert s == p + [s[|s| - 1]];
      if NoDup(s) {
        assert s[|s| - 1] !in p;
      }
    }
  }

  lemma {:induction false} FilterKeepsAll<T>(s: seq<T>, keep: T -> bool)
    requires forall x :: x in s ==> keep(x)
    ensures Filter(s, keep) == s
  {
    if s != [] {
      FilterKeepsAll(s[..|s| - 1], keep);
    }
  }
}
