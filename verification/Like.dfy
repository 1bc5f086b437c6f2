/** `like_match_impl` in `src/engine/executor.rs`: the backtracking LIKE matcher, on ASCII text. */
module Like {
  import opened Prelude

  const PERCENT: byte := 37
  const UNDERSCORE: byte := 95

  /** What LIKE means: `%` stands for any text, `_` for any one character, anything else for itself. */
  predicate Means(text: Str, pattern: Str)
    decreases |pattern|
  {
    if pattern == [] then text == []
    else if pattern[0] == PERCENT then exists i | 0 <= i <= |text| :: Means(text[i..], pattern[1..])
    else text != [] && (pattern[0] == UNDERSCORE || pattern[0] == text[0]) && Means(text[1..], pattern[1..])
  }

  predicate AllPercent(p: Str) {
    forall i :: 0 <= i < |p| ==> p[i] == PERCENT
  }

  predicate EndsDouble(p: Str) {
    |p| >= 2 && p[|p| - 1] == PERCENT && p[|p| - 2] == PERCENT
  }

  /** The pattern the matcher really implements: a trailing run of two or more `%` counts as `_%`. */
  function Effective(p: Str): (r: Str)
    ensures !EndsDouble(p) ==> r == p
  {
    if p == [] then []
    else if AllPercent(p) && |p| >= 2 then [UNDERSCORE, PERCENT]
    else [p[0]] + Effective(p[1..])
  }

  lemma PercentMatchesAll(text: Str)
    ensures Means(text, [PERCENT])
    ensures Means(text, [UNDERSCORE, PERCENT]) <==> text != []
  {
    assert [PERCENT][1..] == [];
    assert text[|text|..] == [];
    assert [UNDERSCORE, PERCENT][1..] == [PERCENT];
    if text != [] {
      assert text[1..][|text| - 1..] == [];
      assert Means(text[1..][|text| - 1..], []);
      assert Means(text[1..], [PERCENT]);
    }
  }

  lemma {:induction false} EffectiveOfAllPercent(p: Str, text: Str)
    requires AllPercent(p) && p != [] && text != []
    ensures Means(text, Effective(p))
  {
    PercentMatchesAll(text);
    if |p| == 1 {
      assert p == [PERCENT] && Effective(p[1..]) == [];
    }
  }

  lemma {:induction false} NeedsText(p: Str)
    requires !AllPercent(p)
    ensures !Means([], Effective(p))
  {
    if p[0] == PERCENT {
      NeedsText(p[1..]);
      var e := Effective(p);
      assert e[1..] == Effective(p[1..]);
      var empty: Str := [];
      assert empty[0..] == empty;
    }
  }

  /** One `%` followed by more pattern: the code tries the non-empty suffixes, and these are enough. */
  lemma PercentStep(text: Str, rest: Str)
    requires rest != []
    ensures Means(text, Effective([PERCENT] + rest))
       <==> exists k | 0 <= k < |text| :: Means(text[k..], Effective(rest))
  {
    var p := [PERCENT] + rest;
    assert p[1..] == rest;
    if AllPercent(rest) {
      assert Effective(p) == [UNDERSCORE, PERCENT];
      PercentMatchesAll(text);
      if text != [] {
        EffectiveOfAllPercent(rest, text[0..]);
      }
    } else {
      assert !AllPercent(p) by {
        var i :| 0 <= i < |rest| && rest[i] != PERCENT;
        assert p[i + 1] == rest[i];
      }
      var e := Effective(p);
      assert e[0] == PERCENT && e[1..] == Effective(rest);
      NeedsText(rest);
      assert text[|text|..] == [];
    }
  }

  /** Some suffix of `text` from `start` on, short of the empty one, matches the rest of the pattern. */
  ghost predicate SomeTail(text: Str, start: nat, rest: Str)
    requires start <= |text|
  {
    exists k | 0 <= k < |text[start..]| :: Means(text[start..][k..], Effective(rest))
  }

  lemma TailFound(text: Str, start: nat, at: nat, rest: Str)
    requires start <= at < |text| && Means(text[at..], Effective(rest))
    ensures SomeTail(text, start, rest)
  {
    assert text[start..][at - start..] == text[at..];
  }

  lemma NoTail(text: Str, start: nat, rest: Str)
    requires start <= |text| && forall k :: start <= k < |text| ==> !Means(text[k..], Effective(rest))
    ensures !SomeTail(text, start, rest)
  {
    forall k | 0 <= k < |text[start..]| ensures !Means(text[start..][k..], Effective(rest)) {
      assert text[start..][k..] == text[start + k..];
    }
  }

  lemma LiteralStep(text: Str, p: Str)
    requires p != [] && p[0] != PERCENT
    ensures Means(text, Effective(p))
       <==> text != [] && (p[0] == UNDERSCORE || p[0] == text[0]) && Means(text[1..], Effective(p[1..]))
  {
    assert Effective(p) == [p[0]] + Effective(p[1..]);
    assert Effective(p)[1..] == Effective(p[1..]);
  }

  lemma LastPercent(text: Str)
    ensures Means(text, Effective([PERCENT]))
  {
    PercentMatchesAll(text);
    assert Effective([PERCENT]) == [PERCENT] + Effective([PERCENT][1..]);
  }

  lemma PatternDone(text: Str, ti: nat, pattern: Str)
    requires ti <= |text|
    ensures Means(text[ti..], Effective(pattern[|pattern|..])) <==> ti == |text|
  {
  }

  lemma FrontOf(s: Str, i: nat)
    requires i < |s|
    ensures s[i..] == [s[i]] + s[i + 1..] && s[i..][0] == s[i] && s[i..][1..] == s[i + 1..]
  {
  }

  method LikeMatch(text: Str, pattern: Str) returns (r: bool)
    ensures r == Means(text, Effective(pattern))
    decreases |pattern|, 0
  {
    var ti, pi := 0, 0;
    while pi < |pattern|
      invariant 0 <= ti <= |text| && 0 <= pi <= |pattern|
      invariant Means(text, Effective(pattern)) == Means(text[ti..], Effective(pattern[pi..]))
    {
      FrontOf(pattern, pi);
      if pattern[pi] == PERCENT {
        pi := pi + 1;
        if pi == |pattern| {
          LastPercent(text[ti..]);
          return true;
        }
        PercentStep(text[ti..], pattern[pi..]);
        r := TryTails(text, ti, pattern[pi..]);
        return;
      }
      LiteralStep(text[ti..], pattern[pi..]);
      if ti >= |text| || (pattern[pi] != UNDERSCORE && text[ti] != pattern[pi]) {
        return false;
      }
      FrontOf(text, ti);
      ti, pi := ti + 1, pi + 1;
    }
    PatternDone(text, ti, pattern);
    r := ti == |text|;
  }

  /** The loop behind a `%`: the matcher is called for each suffix of the text short of the empty one. */
  method TryTails(text: Str, start: nat, rest: Str) returns (r: bool)
    requires start <= |text|
    ensures r == SomeTail(text, start, rest)
    decreases |rest|, 1
  {
    var ti := start;
    while ti < |text|
      invariant start <= ti <= |text|
      invariant forall k :: start <= k < ti ==> !Means(text[k..], Effective(rest))
    {
      var found := LikeMatch(text[ti..], rest);
      if found {
        TailFound(text, start, ti, rest);
        return true;
      }
      ti := ti + 1;
    }
    NoTail(text, start, rest);
    r := false;
  }

  // ---- How far this is from what LIKE means --------------------------------------

  /** The number of characters a pattern asks for. */
  function Weight(p: Str): nat {
    if p == [] then 0 else (if p[0] == PERCENT then 0 else 1) + Weight(p[1..])
  }

  lemma {:induction false} WeightBounds(text: Str, p: Str)
    requires Means(text, p)
    ensures |text| >= Weight(p)
    decreases |p|
  {
    if p != [] {
      if p[0] == PERCENT {
        var i :| 0 <= i <= |text| && Means(text[i..], p[1..]);
        WeightBounds(text[i..], p[1..]);
      } else {
        WeightBounds(text[1..], p[1..]);
      }
    }
  }

  /** The shortest text a pattern matches. */
  function Shortest(p: Str): Str {
    if p == [] then [] else (if p[0] == PERCENT then [] else [p[0]]) + Shortest(p[1..])
  }

  lemma {:induction false} ShortestMatches(p: Str)
    ensures Means(Shortest(p), p) && |Shortest(p)| == Weight(p)
  {
    if p != [] {
      ShortestMatches(p[1..]);
      if p[0] == PERCENT {
        assert Shortest(p)[0..] == Shortest(p[1..]);
      } else {
        assert Shortest(p)[1..] == Shortest(p[1..]);
      }
    }
  }

  lemma {:induction false} EffectiveWeight(p: Str)
    ensures EndsDouble(p) ==> Weight(Effective(p)) == Weight(p) + 1
  {
    if EndsDouble(p) {
      if AllPercent(p) {
        AllPercentWeight(p);
        assert [UNDERSCORE, PERCENT][1..] == [PERCENT] && [PERCENT][1..] == [];
        assert Weight([PERCENT]) == 0;
      } else {
        assert |p| >= 3;
        EffectiveWeight(p[1..]);
        assert Effective(p)[1..] == Effective(p[1..]);
      }
    }
  }

  lemma {:induction false} AllPercentWeight(p: Str)
    requires AllPercent(p)
    ensures Weight(p) == 0
  {
    if p != [] {
      AllPercentWeight(p[1..]);
    }
  }

  /** Whatever the matcher accepts, LIKE accepts. */
  lemma {:induction false} LikeIsSound(text: Str, p: Str)
    requires Means(text, Effective(p))
    ensures Means(text, p)
    decreases |p|
  {
    if p != [] {
      var e := Effective(p);
      if AllPercent(p) && |p| >= 2 {
        AnythingMatches(text, p);
      } else {
        assert e[0] == p[0] && e[1..] == Effective(p[1..]);
        if p[0] == PERCENT {
          var i :| 0 <= i <= |text| && Means(text[i..], e[1..]);
          LikeIsSound(text[i..], p[1..]);
        } else {
          LikeIsSound(text[1..], p[1..]);
        }
      }
    }
  }

  lemma {:induction false} AnythingMatches(text: Str, p: Str)
    requires AllPercent(p) && p != []
    ensures Means(text, p)
  {
    if |p| == 1 {
      PercentMatchesAll(text);
      assert p == [PERCENT];
    } else {
      AnythingMatches(text, p[1..]);
      assert text[0..] == text;
    }
  }

  /** The matcher decides LIKE for every text exactly when the pattern does not end in `%%`. */
  lemma LikeIsExact(p: Str)
    ensures (forall text: Str :: Means(text, Effective(p)) == Means(text, p)) <==> !EndsDouble(p)
  {
    if EndsDouble(p) {
      ShortestMatches(p);
      EffectiveWeight(p);
      var shortest := Shortest(p);
      if Means(shortest, Effective(p)) {
        WeightBounds(shortest, Effective(p));
        assert false;
      }
      assert Means(shortest, Effective(p)) != Means(shortest, p);
    }
  }
}
