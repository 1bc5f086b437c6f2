/** `format_timestamp` in `src/engine/executor.rs`: seconds since 1970 as a Gregorian date and time. */
module Timestamp {
  import opened Prelude
  import opened Order
  import opened Types

  predicate IsLeap(y: nat) {
    (y % 4 == 0 && y % 100 != 0) || y % 400 == 0
  }

  function YearDays(y: nat): nat {
    if IsLeap(y) then 366 else 365
  }

  function MonthDays(y: nat, m: nat): nat {
    if m == 2 then (if IsLeap(y) then 29 else 28)
    else if m == 4 || m == 6 || m == 9 || m == 11 then 30
    else 31
  }

  datatype Stamp = Stamp(year: nat, month: nat, day: nat, hour: nat, minute: nat, second: nat)

  predicate ValidStamp(s: Stamp) {
    && s.year >= 1970 && 1 <= s.month <= 12 && 1 <= s.day <= MonthDays(s.year, s.month)
    && s.hour < 24 && s.minute < 60 && s.second < 60
  }

  // ---- The day count, in closed form ----------------------------------------------

  /** Leap years from year 1 through year `y`. */
  function LeapsThrough(y: nat): nat {
    y / 4 - y / 100 + y / 400
  }

  function DaysBeforeYear(y: nat): nat
    requires y >= 1970
  {
    365 * (y - 1970) + LeapsThrough(y - 1) - LeapsThrough(1969)
  }

  function DaysBeforeMonth(y: nat, m: nat): nat {
    if m <= 1 then 0 else DaysBeforeMonth(y, m - 1) + MonthDays(y, m - 1)
  }

  function DayNumber(s: Stamp): nat
    requires s.year >= 1970 && s.day >= 1
  {
    DaysBeforeYear(s.year) + DaysBeforeMonth(s.year, s.month) + s.day - 1
  }

  function Seconds(s: Stamp): nat
    requires s.year >= 1970 && s.day >= 1
  {
    DayNumber(s) * 86400 + s.hour * 3600 + s.minute * 60 + s.second
  }

  lemma QuotientStep4(y: nat)
    requires y >= 1
    ensures y / 4 == (y - 1) / 4 + if y % 4 == 0 then 1 else 0
  {
    var q, r := (y - 1) / 4, (y - 1) % 4;
    assert y == 4 * q + (r + 1);
  }

  lemma QuotientStep100(y: nat)
    requires y >= 1
    ensures y / 100 == (y - 1) / 100 + if y % 100 == 0 then 1 else 0
  {
    var q, r := (y - 1) / 100, (y - 1) % 100;
    assert y == 100 * q + (r + 1);
  }

  lemma QuotientStep400(y: nat)
    requires y >= 1
    ensures y / 400 == (y - 1) / 400 + if y % 400 == 0 then 1 else 0
  {
    var q, r := (y - 1) / 400, (y - 1) % 400;
    assert y == 400 * q + (r + 1);
  }

  lemma Multiples(k: nat)
    ensures (4 * k) % 4 == 0 && (100 * k) % 100 == 0
  {
  }

  lemma MultipleOf100(y: nat)
    requires y % 100 == 0
    ensures y % 4 == 0
  {
    var k := 25 * (y / 100);
    assert y == 4 * k;
    Multiples(k);
  }

  lemma MultipleOf400(y: nat)
    requires y % 400 == 0
    ensures y % 100 == 0
  {
    var k := 4 * (y / 400);
    assert y == 100 * k;
    Multiples(k);
  }

  lemma LeapsStep(y: nat)
    requires y >= 1
    ensures LeapsThrough(y) == LeapsThrough(y - 1) + if IsLeap(y) then 1 else 0
  {
    QuotientStep4(y);
    QuotientStep100(y);
    QuotientStep400(y);
    if y % 400 == 0 {
      MultipleOf400(y);
    }
    if y % 100 == 0 {
      MultipleOf100(y);
    }
  }

  lemma YearStep(y: nat)
    requires y >= 1970
    ensures DaysBeforeYear(y + 1) == DaysBeforeYear(y) + YearDays(y)
  {
    LeapsStep(y);
  }

  lemma {:induction false} YearsGrow(y: nat, z: nat)
    requires 1970 <= y < z
    ensures DaysBeforeYear(y) + YearDays(y) <= DaysBeforeYear(z)
    decreases z
  {
    YearStep(z - 1);
    if y < z - 1 {
      YearsGrow(y, z - 1);
    }
  }

  lemma MonthsFillYear(y: nat)
    ensures DaysBeforeMonth(y, 12) + MonthDays(y, 12) == YearDays(y)
  {
    var feb := MonthDays(y, 2);
    assert DaysBeforeMonth(y, 1) == 0;
    assert DaysBeforeMonth(y, 2) == 31;
    assert DaysBeforeMonth(y, 3) == 31 + feb;
    assert DaysBeforeMonth(y, 5) == 92 + feb;
    assert DaysBeforeMonth(y, 7) == 153 + feb;
    assert DaysBeforeMonth(y, 9) == 215 + feb;
    assert DaysBeforeMonth(y, 11) == 276 + feb;
  }

  lemma {:induction false} MonthsGrow(y: nat, m: nat, n: nat)
    requires 1 <= m < n
    ensures DaysBeforeMonth(y, m) + MonthDays(y, m) <= DaysBeforeMonth(y, n)
    decreases n
  {
    if m < n - 1 {
      MonthsGrow(y, m, n - 1);
    }
  }

  /** A day lies within its year. */
  lemma DayWithinYear(s: Stamp)
    requires ValidStamp(s)
    ensures DaysBeforeYear(s.year) <= DayNumber(s) < DaysBeforeYear(s.year) + YearDays(s.year)
  {
    MonthsFillYear(s.year);
    if s.month < 12 {
      MonthsGrow(s.year, s.month, 12);
    }
  }

  // ---- Chronological order ----------------------------------------------------------

  function StampCmp(a: Stamp, b: Stamp): Ordering {
    if a.year != b.year then IntCmp(a.year, b.year)
    else if a.month != b.month then IntCmp(a.month, b.month)
    else if a.day != b.day then IntCmp(a.day, b.day)
    else if a.hour != b.hour then IntCmp(a.hour, b.hour)
    else if a.minute != b.minute then IntCmp(a.minute, b.minute)
    else IntCmp(a.second, b.second)
  }

  /** Comparing field by field is comparing the instants; in particular equal instants have equal stamps. */
  lemma StampOrder(a: Stamp, b: Stamp)
    requires ValidStamp(a) && ValidStamp(b)
    ensures StampCmp(a, b) == IntCmp(Seconds(a), Seconds(b))
  {
    DayWithinYear(a);
    DayWithinYear(b);
    if a.year < b.year {
      YearsGrow(a.year, b.year);
      DaysDecide(a, b);
    } else if b.year < a.year {
      YearsGrow(b.year, a.year);
      DaysDecide(b, a);
    } else if a.month < b.month {
      MonthsGrow(a.year, a.month, b.month);
      DaysDecide(a, b);
    } else if b.month < a.month {
      MonthsGrow(a.year, b.month, a.month);
      DaysDecide(b, a);
    } else if a.day < b.day {
      DaysDecide(a, b);
    } else if b.day < a.day {
      DaysDecide(b, a);
    }
  }

  lemma DaysDecide(a: Stamp, b: Stamp)
    requires ValidStamp(a) && ValidStamp(b)
    requires DayNumber(a) < DayNumber(b)
    ensures Seconds(a) < Seconds(b)
  {
  }

  // ---- The loops ----------------------------------------------------------------------

  method SplitTimestamp(secs: u64) returns (s: Stamp)
    ensures ValidStamp(s) && Seconds(s) == secs
  {
    var days, timeSecs := secs / 86400, secs % 86400;
    var y: nat, d: nat := 1970, days;
    while d >= YearDays(y)
      invariant y >= 1970
      invariant DaysBeforeYear(y) + d == days
      decreases d
    {
      YearStep(y);
      d := d - YearDays(y);
      y := y + 1;
    }
    ghost var dayOfYear := d;
    var m: nat := 1;
    MonthsFillYear(y);
    while d >= MonthDays(y, m)
      invariant 1 <= m <= 12
      invariant DaysBeforeMonth(y, m) + d == dayOfYear < YearDays(y)
    {
      d := d - MonthDays(y, m);
      m := m + 1;
    }
    s := Stamp(y, m, d + 1, timeSecs / 3600, timeSecs % 3600 / 60, timeSecs % 60);
  }

  // ---- The text -------------------------------------------------------------------------

  function Digit(n: nat): byte {
    48 + n % 10
  }

  function Pow10(w: nat): nat {
    if w == 0 then 1 else 10 * Pow10(w - 1)
  }

  /** The low `w` decimal digits of `n`. */
  function Fixed(n: nat, w: nat): (s: Str)
    ensures |s| == w
  {
    if w == 0 then [] else Fixed(n / 10, w - 1) + [Digit(n)]
  }

  function Width(n: nat): nat {
    if n < 10 then 1 else 1 + Width(n / 10)
  }

  /** `{n:0w}`: zero-padded to `w` digits, longer when the number is. */
  function Pad(n: nat, w: nat): Str {
    Fixed(n, if Width(n) > w then Width(n) else w)
  }

  function Clock(s: Stamp): Str {
    Pad(s.hour, 2) + ([58] + (Pad(s.minute, 2) + ([58] + Pad(s.second, 2))))
  }

  function Show(s: Stamp): Str {
    Pad(s.year, 4) + ([45] + (Pad(s.month, 2) + ([45] + (Pad(s.day, 2) + ([32] + Clock(s))))))
  }

  /** The stamp of an instant: the only valid one with that many seconds (`StampOrder`). */
  ghost function StampOf(secs: u64): (s: Stamp)
    ensures ValidStamp(s) && Seconds(s) == secs
  {
    StampExists(secs);
    var s :| ValidStamp(s) && Seconds(s) == secs;
    s
  }

  lemma StampExists(secs: u64)
    ensures exists s :: ValidStamp(s) && Seconds(s) == secs
  {
    var y := FindYear(secs / 86400, 1970);
    var m := FindMonth(y, secs / 86400 - DaysBeforeYear(y), 1);
    var time := secs % 86400;
    TimeOfDay(time);
    var s := Stamp(y, m, secs / 86400 - DaysBeforeYear(y) - DaysBeforeMonth(y, m) + 1, time / 3600, time % 3600 / 60, time % 3600 % 60);
    assert ValidStamp(s) && Seconds(s) == secs;
  }

  lemma TimeOfDay(time: nat)
    requires time < 86400
    ensures time / 3600 < 24 && time % 3600 / 60 < 60 && time % 3600 % 60 < 60
    ensures time / 3600 * 3600 + time % 3600 / 60 * 60 + time % 3600 % 60 == time
  {
  }

  ghost function FindYear(days: nat, y: nat): (r: nat)
    requires y >= 1970 && DaysBeforeYear(y) <= days
    ensures r >= 1970 && DaysBeforeYear(r) <= days < DaysBeforeYear(r) + YearDays(r)
    decreases days - DaysBeforeYear(y)
  {
    YearStep(y);
    if days < DaysBeforeYear(y) + YearDays(y) then y else FindYear(days, y + 1)
  }

  ghost function FindMonth(y: nat, d: nat, m: nat): (r: nat)
    requires 1 <= m <= 12 && DaysBeforeMonth(y, m) <= d < YearDays(y)
    ensures 1 <= r <= 12 && DaysBeforeMonth(y, r) <= d < DaysBeforeMonth(y, r) + MonthDays(y, r)
    decreases 12 - m
  {
    MonthsFillYear(y);
    if d < DaysBeforeMonth(y, m) + MonthDays(y, m) then m else FindMonth(y, d, m + 1)
  }

  method FormatTimestamp(secs: u64) returns (v: Value)
    ensures v == Text(Show(StampOf(secs)))
  {
    var s := SplitTimestamp(secs);
    StampOrder(s, StampOf(secs));
    v := Text(Show(s));
  }

  lemma {:induction false} PrefixDecides(x: Str, y: Str, u: Str, v: Str)
    requires |x| == |y|
    ensures StrCmp(x + u, y + v) == if x == y then StrCmp(u, v) else StrCmp(x, y)
  {
    StrCmpIsLawful();
    if x == [] {
      assert x + u == u && y + v == v;
    } else {
      assert (x + u)[1..] == x[1..] + u && (y + v)[1..] == y[1..] + v;
      assert x == [x[0]] + x[1..] && y == [y[0]] + y[1..];
      PrefixDecides(x[1..], y[1..], u, v);
    }
  }

  lemma {:induction false} FixedOrder(a: nat, b: nat, w: nat)
    requires a < Pow10(w) && b < Pow10(w)
    ensures StrCmp(Fixed(a, w), Fixed(b, w)) == IntCmp(a, b)
    ensures Fixed(a, w) == Fixed(b, w) <==> a == b
  {
    StrCmpIsLawful();
    if w > 0 {
      FixedOrder(a / 10, b / 10, w - 1);
      PrefixDecides(Fixed(a / 10, w - 1), Fixed(b / 10, w - 1), [Digit(a)], [Digit(b)]);
      assert [Digit(a)][1..] == [Digit(b)][1..] == [];
    }
  }

  lemma PadOrder(a: nat, b: nat, w: nat, u: Str, v: Str)
    requires (w == 2 && a < 100 && b < 100) || (w == 4 && a < 10000 && b < 10000)
    ensures StrCmp(Pad(a, w) + u, Pad(b, w) + v) == if a == b then StrCmp(u, v) else IntCmp(a, b)
  {
    assert Pow10(2) == 100 && Pow10(4) == 100 * Pow10(2);
    NarrowWidth(a, w);
    NarrowWidth(b, w);
    FixedOrder(a, b, w);
    PrefixDecides(Pad(a, w), Pad(b, w), u, v);
  }

  lemma NarrowWidth(n: nat, w: nat)
    requires (w == 2 && n < 100) || (w == 4 && n < 10000)
    ensures Width(n) <= w
  {
    if w == 4 && n >= 100 {
      NarrowWidth(n / 10 / 10, 2);
      assert Width(n / 10) == 1 + Width(n / 10 / 10);
    }
  }

  lemma SeparatorSkipped(c: byte, u: Str, v: Str)
    ensures StrCmp([c] + u, [c] + v) == StrCmp(u, v)
  {
    PrefixDecides([c], [c], u, v);
  }

  /** Up to the year 9999, the order of the texts is the order of the instants. */
  lemma TextOrderIsTimeOrder(a: Stamp, b: Stamp)
    requires ValidStamp(a) && ValidStamp(b) && a.year <= 9999 && b.year <= 9999
    ensures StrCmp(Show(a), Show(b)) == IntCmp(Seconds(a), Seconds(b))
  {
    StampOrder(a, b);
    ClockOrder(a, b);
    var ta, tb := Clock(a), Clock(b);
    assert MonthDays(a.year, a.month) < 100 && MonthDays(b.year, b.month) < 100;
    PadOrder(a.day, b.day, 2, [32] + ta, [32] + tb);
    SeparatorSkipped(32, ta, tb);
    var da, db := Pad(a.day, 2) + ([32] + ta), Pad(b.day, 2) + ([32] + tb);
    PadOrder(a.month, b.month, 2, [45] + da, [45] + db);
    SeparatorSkipped(45, da, db);
    var ma, mb := Pad(a.month, 2) + ([45] + da), Pad(b.month, 2) + ([45] + db);
    PadOrder(a.year, b.year, 4, [45] + ma, [45] + mb);
    SeparatorSkipped(45, ma, mb);
  }

  lemma ClockOrder(a: Stamp, b: Stamp)
    requires ValidStamp(a) && ValidStamp(b)
    ensures StrCmp(Clock(a), Clock(b))
         == if a.hour != b.hour then IntCmp(a.hour, b.hour)
            else if a.minute != b.minute then IntCmp(a.minute, b.minute)
            else IntCmp(a.second, b.second)
  {
    var sa, sb := Pad(a.second, 2), Pad(b.second, 2);
    assert sa + [] == sa && sb + [] == sb;
    PadOrder(a.second, b.second, 2, [], []);
    PadOrder(a.minute, b.minute, 2, [58] + sa, [58] + sb);
    SeparatorSkipped(58, sa, sb);
    var ma, mb := Pad(a.minute, 2) + ([58] + sa), Pad(b.minute, 2) + ([58] + sb);
    PadOrder(a.hour, b.hour, 2, [58] + ma, [58] + mb);
    SeparatorSkipped(58, ma, mb);
  }
}
