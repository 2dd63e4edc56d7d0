/** Proleptic Gregorian calendar dates, hourly timestamps and the calendar
    bins (day, month, year) that pandas' resample groups by. */
module Calendar {

  datatype Date = Date(year: int, month: int, day: int)

  /** A local wall-clock hour on a calendar date. */
  datatype Timestamp = Timestamp(date: Date, hour: int)

  /** A calendar month, the bin of a monthly resample. */
  datatype YearMonth = YearMonth(year: int, month: int)

  predicate IsLeapYear(y: int)
  {
    y % 4 == 0 && (y % 100 != 0 || y % 400 == 0)
  }

  function DaysInMonth(y: int, m: int): (n: int)
    requires 1 <= m <= 12
    ensures 28 <= n <= 31
    ensures n == 29 <==> m == 2 && IsLeapYear(y)
  {
    if m == 2 then (if IsLeapYear(y) then 29 else 28)
    else if m == 4 || m == 6 || m == 9 || m == 11 then 30
    else 31
  }

  predicate ValidDate(d: Date)
  {
    1 <= d.month <= 12 && 1 <= d.day <= DaysInMonth(d.year, d.month)
  }

  predicate ValidTimestamp(t: Timestamp)
  {
    ValidDate(t.date) && 0 <= t.hour < 24
  }

  predicate ValidMonth(ym: YearMonth)
  {
    1 <= ym.month <= 12
  }

  /** A rank that orders valid dates chronologically (year, then month, then day). */
  function Ord(d: Date): int
  {
    d.year * 416 + d.month * 32 + d.day
  }

  /** The calendar date a timestamp falls on (the daily bin). */
  function DateOf(t: Timestamp): Date
  {
    t.date
  }

  /** The calendar month a date falls in (the monthly bin). */
  function MonthOf(d: Date): YearMonth
  {
    YearMonth(d.year, d.month)
  }

  /** The year a date falls in (the yearly bin). */
  function YearOf(d: Date): int
  {
    d.year
  }

  lemma OrdIsChronological(a: Date, b: Date)
    requires ValidDate(a) && ValidDate(b)
    ensures Ord(a) < Ord(b) <==>
              a.year < b.year
              || (a.year == b.year && a.month < b.month)
              || (a.year == b.year && a.month == b.month && a.day < b.day)
    ensures Ord(a) == Ord(b) <==> a == b
  {
    if a.year < b.year {
      assert Ord(a) <= a.year * 416 + 12 * 32 + 31 < (a.year + 1) * 416 <= Ord(b);
    } else if a.year > b.year {
      assert Ord(b) <= b.year * 416 + 12 * 32 + 31 < (b.year + 1) * 416 <= Ord(a);
    }
  }

  lemma OrdInjective()
    ensures forall a, b :: ValidDate(a) && ValidDate(b) && Ord(a) == Ord(b) ==> a == b
  {
    forall a, b | ValidDate(a) && ValidDate(b) && Ord(a) == Ord(b) ensures a == b {
      OrdIsChronological(a, b);
    }
  }

  /** The calendar day after d, rolling over month and year ends. */
  function NextDay(d: Date): (e: Date)
    requires ValidDate(d)
    ensures ValidDate(e) && Ord(d) < Ord(e)
  {
    if d.day < DaysInMonth(d.year, d.month) then Date(d.year, d.month, d.day + 1)
    else if d.month < 12 then Date(d.year, d.month + 1, 1)
    else Date(d.year + 1, 1, 1)
  }

  /** No valid date lies strictly between a date and the day after it. */
  lemma NextDayIsNext(d: Date, x: Date)
    requires ValidDate(d) && ValidDate(x) && Ord(d) < Ord(x)
    ensures Ord(NextDay(d)) <= Ord(x)
  {
    OrdIsChronological(d, x);
    OrdIsChronological(NextDay(d), x);
  }

  /** Every calendar day from lo to hi, inclusive, in order: the bins of a
      daily resample whose first and last keys fall on lo and hi. */
  function DaySpan(lo: Date, hi: Date): (s: seq<Date>)
    requires ValidDate(lo)
    ensures forall i :: 0 <= i < |s| ==> ValidDate(s[i]) && Ord(lo) <= Ord(s[i]) <= Ord(hi)
    ensures Ord(lo) <= Ord(hi) ==> |s| > 0 && s[0] == lo
    decreases Ord(hi) - Ord(lo)
  {
    if Ord(hi) < Ord(lo) then [] else [lo] + DaySpan(NextDay(lo), hi)
  }

  /** The days of a span are consecutive: each is the day after the one before,
      so they are strictly increasing and no day repeats. */
  lemma {:induction false} DaySpanConsecutive(lo: Date, hi: Date)
    requires ValidDate(lo)
    ensures forall i :: 0 <= i < |DaySpan(lo, hi)| - 1 ==> DaySpan(lo, hi)[i + 1] == NextDay(DaySpan(lo, hi)[i])
    ensures forall i, j :: 0 <= i < j < |DaySpan(lo, hi)| ==> Ord(DaySpan(lo, hi)[i]) < Ord(DaySpan(lo, hi)[j])
    decreases Ord(hi) - Ord(lo)
  {
    if Ord(lo) <= Ord(hi) {
      var rest := DaySpan(NextDay(lo), hi);
      DaySpanConsecutive(NextDay(lo), hi);
      assert DaySpan(lo, hi) == [lo] + rest;
    }
  }

  /** A span contains every valid date between its ends. */
  lemma {:induction false} DaySpanCovers(lo: Date, hi: Date, x: Date)
    requires ValidDate(lo) && ValidDate(x) && Ord(lo) <= Ord(x) <= Ord(hi)
    ensures x in DaySpan(lo, hi)
    decreases Ord(hi) - Ord(lo)
  {
    if Ord(x) == Ord(lo) {
      OrdIsChronological(lo, x);
    } else {
      NextDayIsNext(lo, x);
      DaySpanCovers(NextDay(lo), hi, x);
      assert DaySpan(lo, hi) == [lo] + DaySpan(NextDay(lo), hi);
    }
  }

  /** Months are numbered consecutively across year boundaries. */
  function MonthIndex(ym: YearMonth): int
  {
    ym.year * 12 + ym.month - 1
  }

  function MonthAt(n: int): (ym: YearMonth)
    ensures ValidMonth(ym) && MonthIndex(ym) == n
  {
    YearMonth(n / 12, n % 12 + 1)
  }

  lemma MonthIndexInjective(a: YearMonth, b: YearMonth)
    requires ValidMonth(a) && ValidMonth(b) && MonthIndex(a) == MonthIndex(b)
    ensures a == b
  {
  }

  /** Every calendar month from lo to hi, inclusive, in order: the bins of a
      monthly resample. */
  function MonthSpan(lo: YearMonth, hi: YearMonth): (s: seq<YearMonth>)
    ensures |s| == if MonthIndex(hi) < MonthIndex(lo) then 0 else MonthIndex(hi) - MonthIndex(lo) + 1
    ensures forall i :: 0 <= i < |s| ==> ValidMonth(s[i]) && MonthIndex(s[i]) == MonthIndex(lo) + i
    ensures forall ym :: ValidMonth(ym) && MonthIndex(lo) <= MonthIndex(ym) <= MonthIndex(hi) ==> ym in s
  {
    if MonthIndex(hi) < MonthIndex(lo) then []
    else
      var s := seq(MonthIndex(hi) - MonthIndex(lo) + 1, i => MonthAt(MonthIndex(lo) + i));
      assert forall i :: 0 <= i < |s| ==> s[i] == MonthAt(MonthIndex(lo) + i);
      assert forall ym :: ValidMonth(ym) && MonthIndex(lo) <= MonthIndex(ym) <= MonthIndex(hi) ==> ym in s by {
        forall ym | ValidMonth(ym) && MonthIndex(lo) <= MonthIndex(ym) <= MonthIndex(hi) ensures ym in s {
          var i := MonthIndex(ym) - MonthIndex(lo);
          MonthIndexInjective(s[i], ym);
        }
      }
      s
  }

  /** Every year from lo to hi, inclusive: the bins of a yearly resample. */
  function YearSpan(lo: int, hi: int): (s: seq<int>)
    ensures |s| == if hi < lo then 0 else hi - lo + 1
    ensures forall i :: 0 <= i < |s| ==> s[i] == lo + i
    ensures forall y :: lo <= y <= hi ==> y in s
  {
    if hi < lo then []
    else
      var s := seq(hi - lo + 1, i => lo + i);
      assert forall y :: lo <= y <= hi ==> y in s by {
        forall y | lo <= y <= hi ensures y in s {
          assert s[y - lo] == y;
        }
      }
      s
  }

  /** Later dates fall in the same or a later month, and the same or a later year. */
  lemma BinsAreMonotone(a: Date, b: Date)
    requires ValidDate(a) && ValidDate(b) && Ord(a) <= Ord(b)
    ensures MonthIndex(MonthOf(a)) <= MonthIndex(MonthOf(b))
    ensures YearOf(a) <= YearOf(b)
  {
    OrdIsChronological(a, b);
  }

  /** The earliest of a non-empty sequence of dates. */
  function Earliest(ds: seq<Date>): (e: Date)
    requires |ds| > 0
    ensures e in ds && forall i :: 0 <= i < |ds| ==> Ord(e) <= Ord(ds[i])
  {
    if |ds| == 1 then ds[0]
    else
      var e := Earliest(ds[1..]);
      assert forall i :: 1 <= i < |ds| ==> ds[i] == ds[1..][i - 1];
      if Ord(ds[0]) <= Ord(e) then ds[0] else e
  }

  /** The latest of a non-empty sequence of dates. */
  function Latest(ds: seq<Date>): (l: Date)
    requires |ds| > 0
    ensures l in ds && forall i :: 0 <= i < |ds| ==> Ord(ds[i]) <= Ord(l)
  {
    if |ds| == 1 then ds[0]
    else
      var l := Latest(ds[1..]);
      assert forall i :: 1 <= i < |ds| ==> ds[i] == ds[1..][i - 1];
      if Ord(l) <= Ord(ds[0]) then ds[0] else l
  }
}
