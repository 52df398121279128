/** Why sorting GitHub's timestamps as strings sorts them by time.

    The API writes UTC instants as `YYYY-MM-DDTHH:MM:SSZ`, the RFC 3339 form.  Section 5.1 of
    RFC 3339 says that such strings, compared as strings, compare in time order. */
module Timestamps {

  datatype Timestamp = Timestamp(year: nat, month: nat, day: nat, hour: nat, minute: nat, second: nat)

  predicate IsLeap(y: nat) {
    y % 4 == 0 && (y % 100 != 0 || y % 400 == 0)
  }

  function DaysInYear(y: nat): nat {
    if IsLeap(y) then 366 else 365
  }

  function DaysInMonth(y: nat, m: nat): nat {
    if m == 2 then (if IsLeap(y) then 29 else 28)
    else if m in {4, 6, 9, 11} then 30
    else 31
  }

  predicate Valid(t: Timestamp) {
    && t.year <= 9999
    && 1 <= t.month <= 12
    && 1 <= t.day <= DaysInMonth(t.year, t.month)
    && t.hour < 24 && t.minute < 60 && t.second < 60
  }

  function DaysBeforeYear(y: nat): nat {
    if y == 0 then 0 else DaysBeforeYear(y - 1) + DaysInYear(y - 1)
  }

  function DaysBeforeMonth(y: nat, m: nat): nat {
    if m <= 1 then 0 else DaysBeforeMonth(y, m - 1) + DaysInMonth(y, m - 1)
  }

  /** Days since the first of January of the year 0. */
  function DayNumber(t: Timestamp): int {
    DaysBeforeYear(t.year) + DaysBeforeMonth(t.year, t.month) + t.day - 1
  }

  /** Seconds since the start of the year 0. */
  function Instant(t: Timestamp): int {
    DayNumber(t) * 86400 + t.hour * 3600 + t.minute * 60 + t.second
  }

  function Digit(n: nat): char {
    '0' + (n % 10) as char
  }

  /** The last `w` decimal digits of `n`. */
  function Pad(n: nat, w: nat): (s: string)
    ensures |s| == w
  {
    if w == 0 then "" else Pad(n / 10, w - 1) + [Digit(n)]
  }

  function Format(t: Timestamp): string {
    Pad(t.year, 4) + (['-'] + (Pad(t.month, 2) + (['-'] + (Pad(t.day, 2) + (['T'] + Clock(t))))))
  }

  function Clock(t: Timestamp): string {
    Pad(t.hour, 2) + ([':'] + (Pad(t.minute, 2) + ([':'] + (Pad(t.second, 2) + ['Z']))))
  }

  /** String comparison, character by character. */
  predicate Less(a: string, b: string) {
    if b == "" then false
    else if a == "" then true
    else a[0] < b[0] || (a[0] == b[0] && Less(a[1..], b[1..]))
  }

  // ----- strings

  lemma {:induction false} LessAppend(a: string, b: string, c: string, d: string)
    requires |a| == |c|
    ensures Less(a + b, c + d) <==> Less(a, c) || (a == c && Less(b, d))
  {
    if a == "" {
      assert a + b == b && c + d == d;
    } else {
      assert (a + b)[1..] == a[1..] + b && (c + d)[1..] == c[1..] + d;
      assert a == [a[0]] + a[1..] && c == [c[0]] + c[1..];
      LessAppend(a[1..], b, c[1..], d);
    }
  }

  lemma {:induction false} LessIsTotalOrder(a: string, b: string)
    ensures !(Less(a, b) && Less(b, a))
    ensures Less(a, b) || Less(b, a) || a == b
    ensures !Less(a, a)
  {
    if a != "" && b != "" {
      LessIsTotalOrder(a[1..], b[1..]);
      assert a == [a[0]] + a[1..] && b == [b[0]] + b[1..];
    }
    if a != "" { LessIsTotalOrder(a[1..], a[1..]); }
  }

  lemma {:induction false} LessTransitive(a: string, b: string, c: string)
    requires Less(a, b) && Less(b, c)
    ensures Less(a, c)
  {
    if a != "" && a[0] == b[0] && b[0] == c[0] {
      LessTransitive(a[1..], b[1..], c[1..]);
    }
  }

  function Pow10(w: nat): nat {
    if w == 0 then 1 else 10 * Pow10(w - 1)
  }

  lemma {:induction false} PadOrder(n: nat, m: nat, w: nat)
    requires n < Pow10(w) && m < Pow10(w)
    ensures Less(Pad(n, w), Pad(m, w)) <==> n < m
    ensures Pad(n, w) == Pad(m, w) <==> n == m
  {
    if w > 0 {
      PadOrder(n / 10, m / 10, w - 1);
      var p, q := Pad(n / 10, w - 1), Pad(m / 10, w - 1);
      LessAppend(p, [Digit(n)], q, [Digit(m)]);
      assert Less([Digit(n)], [Digit(m)]) <==> n % 10 < m % 10;
      assert Pad(n, w)[..w - 1] == p && Pad(m, w)[..w - 1] == q;
      assert Pad(n, w)[w - 1] == Digit(n) && Pad(m, w)[w - 1] == Digit(m);
    }
  }

  /** One numeric field decides unless it is equal on both sides, and then the rest does. */
  lemma FieldOrder(n: nat, m: nat, w: nat, r: string, s: string)
    requires n < Pow10(w) && m < Pow10(w)
    ensures Less(Pad(n, w) + r, Pad(m, w) + s) <==> n < m || (n == m && Less(r, s))
  {
    PadOrder(n, m, w);
    LessAppend(Pad(n, w), r, Pad(m, w), s);
  }

  lemma SeparatorOrder(c: char, r: string, s: string)
    ensures Less([c] + r, [c] + s) <==> Less(r, s)
  {
    LessAppend([c], r, [c], s);
  }

  // ----- fields, most significant first

  predicate ClockBefore(a: Timestamp, b: Timestamp) {
    a.hour < b.hour || (a.hour == b.hour && (a.minute < b.minute || (a.minute == b.minute && a.second < b.second)))
  }

  predicate DayBefore(a: Timestamp, b: Timestamp) {
    a.year < b.year || (a.year == b.year && (a.month < b.month || (a.month == b.month && a.day < b.day)))
  }

  predicate SameDay(a: Timestamp, b: Timestamp) {
    a.year == b.year && a.month == b.month && a.day == b.day
  }

  predicate FieldsBefore(a: Timestamp, b: Timestamp) {
    DayBefore(a, b) || (SameDay(a, b) && ClockBefore(a, b))
  }

  lemma Widths()
    ensures Pow10(2) == 100 && Pow10(4) == 10000
  {
    assert Pow10(1) == 10;
    assert Pow10(3) == 10 * Pow10(2);
  }

  lemma ClockOrder(a: Timestamp, b: Timestamp)
    requires Valid(a) && Valid(b)
    ensures Less(Clock(a), Clock(b)) <==> ClockBefore(a, b)
  {
    Widths();
    hide Less, Pad, Pow10;
    var z := ['Z'];
    var sa, sb := Pad(a.second, 2) + z, Pad(b.second, 2) + z;
    var ma, mb := Pad(a.minute, 2) + ([':'] + sa), Pad(b.minute, 2) + ([':'] + sb);
    FieldOrder(a.hour, b.hour, 2, [':'] + ma, [':'] + mb);
    SeparatorOrder(':', ma, mb);
    FieldOrder(a.minute, b.minute, 2, [':'] + sa, [':'] + sb);
    SeparatorOrder(':', sa, sb);
    FieldOrder(a.second, b.second, 2, z, z);
    LessIsTotalOrder(z, z);
  }

  lemma FormatOrder(a: Timestamp, b: Timestamp)
    requires Valid(a) && Valid(b)
    ensures Less(Format(a), Format(b)) <==> FieldsBefore(a, b)
  {
    Widths();
    ClockOrder(a, b);
    hide Less, Pad, Pow10, Clock;
    var da, db := Pad(a.day, 2) + (['T'] + Clock(a)), Pad(b.day, 2) + (['T'] + Clock(b));
    var ma, mb := Pad(a.month, 2) + (['-'] + da), Pad(b.month, 2) + (['-'] + db);
    FieldOrder(a.year, b.year, 4, ['-'] + ma, ['-'] + mb);
    SeparatorOrder('-', ma, mb);
    FieldOrder(a.month, b.month, 2, ['-'] + da, ['-'] + db);
    SeparatorOrder('-', da, db);
    FieldOrder(a.day, b.day, 2, ['T'] + Clock(a), ['T'] + Clock(b));
    SeparatorOrder('T', Clock(a), Clock(b));
  }

  // ----- the calendar

  lemma {:induction false} YearsGrow(y: nat, z: nat)
    requires y < z
    ensures DaysBeforeYear(y) + DaysInYear(y) <= DaysBeforeYear(z)
    decreases z
  {
    if y + 1 < z { YearsGrow(y, z - 1); }
  }

  lemma {:induction false} MonthsGrow(y: nat, m: nat, n: nat)
    requires 1 <= m < n
    ensures DaysBeforeMonth(y, m) + DaysInMonth(y, m) <= DaysBeforeMonth(y, n)
    decreases n
  {
    if m + 1 < n { MonthsGrow(y, m, n - 1); }
  }

  /** The twelve months make up the year. */
  lemma MonthsFillTheYear(y: nat)
    ensures DaysBeforeMonth(y, 13) == DaysInYear(y)
  {
    var feb := DaysInMonth(y, 2);
    assert DaysBeforeMonth(y, 2) == 31;
    assert DaysBeforeMonth(y, 3) == 31 + feb;
    assert DaysBeforeMonth(y, 4) == 62 + feb;
    assert DaysBeforeMonth(y, 5) == 92 + feb;
    assert DaysBeforeMonth(y, 6) == 123 + feb;
    assert DaysBeforeMonth(y, 7) == 153 + feb;
    assert DaysBeforeMonth(y, 8) == 184 + feb;
    assert DaysBeforeMonth(y, 9) == 215 + feb;
    assert DaysBeforeMonth(y, 10) == 245 + feb;
    assert DaysBeforeMonth(y, 11) == 276 + feb;
    assert DaysBeforeMonth(y, 12) == 306 + feb;
  }

  lemma Carries(y: nat)
    ensures (y + 4) / 4 - (y + 3) / 4 == if y % 4 == 0 then 1 else 0
    ensures (y + 100) / 100 - (y + 99) / 100 == if y % 100 == 0 then 1 else 0
    ensures (y + 400) / 400 - (y + 399) / 400 == if y % 400 == 0 then 1 else 0
  {
    assert y == 4 * (y / 4) + y % 4;
    assert y == 100 * (y / 100) + y % 100;
    assert y == 400 * (y / 400) + y % 400;
  }

  lemma Divisibility(y: nat)
    ensures y % 400 == 0 ==> y % 100 == 0
    ensures y % 100 == 0 ==> y % 4 == 0
  {
    var q, r := y / 100, y / 400;
    assert y % 400 == 0 ==> y == 100 * (4 * r);
    assert y % 100 == 0 ==> y == 4 * (25 * q);
    Multiples(4 * r);
    Multiples(25 * q);
  }

  lemma Multiples(q: nat)
    ensures (100 * q) % 100 == 0 && (4 * q) % 4 == 0
  {
  }

  /** Counting leap years: one in four, less one in a hundred, plus one in four hundred. */
  lemma {:induction false} YearsInClosedForm(y: nat)
    ensures DaysBeforeYear(y) == 365 * y + (y + 3) / 4 - (y + 99) / 100 + (y + 399) / 400
  {
    if y > 0 {
      YearsInClosedForm(y - 1);
      Carries(y - 1);
      Divisibility(y - 1);
    }
  }

  lemma DayNumberOrder(a: Timestamp, b: Timestamp)
    requires Valid(a) && Valid(b) && DayBefore(a, b)
    ensures DayNumber(a) < DayNumber(b)
  {
    if a.year < b.year {
      YearsGrow(a.year, b.year);
      MonthsFillTheYear(a.year);
      MonthsGrow(a.year, a.month, 13);
    } else if a.month < b.month {
      MonthsGrow(a.year, a.month, b.month);
    }
  }

  lemma InstantFollowsFields(a: Timestamp, b: Timestamp)
    requires Valid(a) && Valid(b) && FieldsBefore(a, b)
    ensures Instant(a) < Instant(b)
  {
    if DayBefore(a, b) {
      DayNumberOrder(a, b);
    }
    hide DaysBeforeYear, DaysBeforeMonth;
  }

  /** String order is time order, in both directions, and equal strings are equal instants. */
  lemma StringOrderIsTimeOrder(a: Timestamp, b: Timestamp)
    requires Valid(a) && Valid(b)
    ensures Less(Format(a), Format(b)) <==> Instant(a) < Instant(b)
    ensures Format(a) == Format(b) <==> Instant(a) == Instant(b)
  {
    FormatOrder(a, b);
    FormatOrder(b, a);
    if FieldsBefore(a, b) {
      InstantFollowsFields(a, b);
    } else if FieldsBefore(b, a) {
      InstantFollowsFields(b, a);
    } else {
      assert a == b;
    }
    LessIsTotalOrder(Format(a), Format(b));
    LessIsTotalOrder(Format(a), Format(a));
  }
}
