/**
 Day numbers: how many days apart two dates are.

 A packed date is a year, a month and a day. Its Julian day number is computed by arithmetic
 alone; that it counts the days of the Gregorian calendar one by one is proved here.
 */
module Dates {
  import opened Entries

  /** The Julian day number of a packed date in the Gregorian calendar. */
  function JulianDay(d: Date): int
  {
    DayNumber(d / 512, d / 32 % 16, d % 32)
  }

  function DayNumber(year: int, month: int, day: int): int
  {
    var shift := (14 - month) / 12;
    var y, m := year + 4800 - shift, month + 12 * shift - 3;
    day + (153 * m + 2) / 5 + 365 * y + y / 4 - y / 100 + y / 400 - 32045
  }

  function DaysIn(year: int, month: int): int
  {
    if month == 2 then (if IsLeap(year) then 29 else 28)
    else if month in {4, 6, 9, 11} then 30 else 31
  }

  function Packed(year: int, month: int, day: int): int
  {
    (year * 16 + month) * 32 + day
  }

  /** The day numbers of consecutive days of the Gregorian calendar are consecutive. */
  lemma JulianDayCounts(year: int, month: int, day: int)
    requires -0x7FFF_FFFF <= year < 0x7FFF_FFFF && 1 <= month <= 12 && 1 <= day <= DaysIn(year, month)
    ensures JulianDay(Packed(2000, 1, 1)) == 2451545
    ensures var today := JulianDay(Packed(year, month, day));
      && (day < DaysIn(year, month) ==> JulianDay(Packed(year, month, day + 1)) == today + 1)
      && (day == DaysIn(year, month) && month < 12 ==> JulianDay(Packed(year, month + 1, 1)) == today + 1)
      && (day == DaysIn(year, month) && month == 12 ==> JulianDay(Packed(year + 1, 1, 1)) == today + 1)
  {
    hide DayNumber, Packed;
    assert JulianDay(Packed(2000, 1, 1)) == 2451545 by {
      PackedParts(2000, 1, 1);
      DayNumberParts(2000, 1, 1, 1);
    }
    NextDay(year, month, day);
    NextMonth(year, month);
    PackedParts(year, month, day);
    if day < DaysIn(year, month) {
      PackedParts(year, month, day + 1);
    }
    PackedParts(year, month + 1, 1);
    PackedParts(year + 1, 1, 1);
  }

  lemma PackedParts(year: int, month: int, day: int)
    requires 0 <= month < 16 && 0 <= day < 32
    ensures var d := Packed(year, month, day); d / 512 == year && d / 32 % 16 == month && d % 32 == day
  {
  }

  lemma NextDay(year: int, month: int, day: int)
    ensures DayNumber(year, month, day + 1) == DayNumber(year, month, day) + 1
  {
  }

  lemma NextMonth(year: int, month: int)
    requires 1 <= month <= 12
    ensures month < 12 ==> DayNumber(year, month + 1, 1) == DayNumber(year, month, DaysIn(year, month)) + 1
    ensures month == 12 ==> DayNumber(year + 1, 1, 1) == DayNumber(year, month, DaysIn(year, month)) + 1
  {
    hide DayNumber, DaysIn;
    if month == 2 {
      FebruaryEnds(year);
    } else if month == 12 {
      DecemberEnds(year);
    } else {
      MonthEnds(year, month, if month == 1 then 1 else 0);
    }
  }

  lemma FebruaryEnds(year: int)
    ensures DayNumber(year, 3, 1) == DayNumber(year, 2, DaysIn(year, 2)) + 1
  {
    hide DayNumber, YearDays, MonthDays, DaysIn;
    var last := DaysIn(year, 2);
    MonthLengths();
    February(year);
    DayNumberParts(year, 3, 1, 0);
    DayNumberParts(year, 2, last, 1);
  }

  lemma DecemberEnds(year: int)
    ensures DayNumber(year + 1, 1, 1) == DayNumber(year, 12, DaysIn(year, 12)) + 1
  {
    hide DayNumber, YearDays, MonthDays;
    MonthLengths();
    DayNumberParts(year + 1, 1, 1, 1);
    DayNumberParts(year, 12, 31, 0);
  }

  lemma MonthEnds(year: int, month: int, shift: int)
    requires month == 1 || 3 <= month <= 11
    requires shift == if month == 1 then 1 else 0
    ensures DayNumber(year, month + 1, 1) == DayNumber(year, month, DaysIn(year, month)) + 1
  {
    hide DayNumber, YearDays, MonthDays, DaysIn;
    var last := DaysIn(year, month);
    MonthLength(year, month, month + 12 * shift - 3);
    DayNumberParts(year, month + 1, 1, shift);
    DayNumberParts(year, month, last, shift);
  }

  /** The days of the months before, counting from March. */
  function MonthDays(m: int): int
  {
    (153 * m + 2) / 5
  }

  lemma MonthLengths()
    ensures MonthDays(0) == 0 && MonthDays(9) == 275 && MonthDays(10) == 306 && MonthDays(11) == 337
  {
  }

  lemma MonthLength(year: int, month: int, m: int)
    requires 0 <= m <= 10 && month == if m == 10 then 1 else m + 3
    requires month != 12
    ensures MonthDays(m + 1) - MonthDays(m) == DaysIn(year, month)
  {
    assert MonthDays(m) == 30 * m + (3 * m + 2) / 5;
    assert MonthDays(m + 1) == 30 * (m + 1) + (3 * m + 5) / 5;
  }

  /** The days of the years before, as the Gregorian rule adds them. */
  function YearDays(y: int): int
  {
    365 * y + y / 4 - y / 100 + y / 400
  }

  lemma DayNumberParts(year: int, month: int, day: int, shift: int)
    requires 1 <= month <= 12 && shift == if month <= 2 then 1 else 0
    ensures DayNumber(year, month, day) ==
      day + MonthDays(month + 12 * shift - 3) + YearDays(year + 4800 - shift) - 32045
  {
    assert (14 - month) / 12 == shift;
  }

  predicate IsLeap(y: int)
  {
    y % 4 == 0 && (y % 100 != 0 || y % 400 == 0)
  }

  lemma LeapYear(y: int)
    ensures YearDays(y) - YearDays(y - 1) == 365 + if IsLeap(y) then 1 else 0
  {
    MultipleReached(y, 4);
    MultipleReached(y, 100);
    MultipleReached(y, 400);
    CenturiesNest(y);
  }

  lemma CenturiesNest(y: int)
    ensures y % 400 == 0 ==> y % 100 == 0
    ensures y % 100 == 0 ==> y % 4 == 0
  {
  }

  /** Counting a multiple once it is reached. */
  lemma MultipleReached(y: int, k: int)
    requires k == 4 || k == 100 || k == 400
    ensures y / k - (y - 1) / k == if y % k == 0 then 1 else 0
  {
  }

  lemma February(year: int)
    ensures YearDays(year + 4800) - YearDays(year + 4799) == 337 + DaysIn(year, 2)
  {
    hide YearDays;
    LeapYear(year + 4800);
    SameCycle(year);
  }

  lemma SameRemainder(y: int, k: int, cycles: int)
    requires (k == 4 && cycles == 1200) || (k == 100 && cycles == 48) || (k == 400 && cycles == 12)
    ensures (y + 4800) % k == y % k
  {
    var q, r := y / k, y % k;
    assert y + 4800 == (q + cycles) * k + r by {
      assert y == q * k + r;
    }
    RemainderIs(y + 4800, q + cycles, k, r);
  }

  lemma RemainderIs(n: int, q: int, k: int, r: int)
    requires n == q * k + r && 0 <= r < k
    requires k == 4 || k == 100 || k == 400
    ensures n % k == r
  {
  }

  /** Twelve cycles of 400 years on, leap years are the same. */
  lemma SameCycle(year: int)
    ensures IsLeap(year + 4800) <==> IsLeap(year)
  {
    SameRemainder(year, 4, 1200);
    SameRemainder(year, 100, 48);
    SameRemainder(year, 400, 12);
  }
}
