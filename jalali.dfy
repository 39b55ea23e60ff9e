/**
 * `gregorianToJalali` of utils.js: a Gregorian date to a Jalali (Solar
 * Hijri) date by counting days and peeling off 33-year (12053-day) and
 * 4-year (1461-day) cycles.
 *
 * Every `parseInt(x / y)` of the source truncates toward zero, and `%`
 * keeps the sign of the dividend; `Quot` and `Rem` model both, since
 * Dafny's own `/` and `%` are Euclidean.
 */
module Jalali {
  import opened Wrappers

  /** `parseInt(a / b)` for a positive divisor: the quotient truncated toward zero. */
  function Quot(a: int, b: int): (q: int)
    requires b > 0
    ensures a >= 0 ==> 0 <= a - b * q < b
    ensures a < 0 ==> -b < a - b * q <= 0
  {
    if a >= 0 then a / b else -((-a) / b)
  }

  /** `a % b` for a positive divisor: the remainder has the sign of `a`. */
  function Rem(a: int, b: int): (r: int)
    requires b > 0
    ensures a >= 0 ==> 0 <= r < b
    ensures a < 0 ==> -b < r <= 0
    ensures (a - r) % b == 0
  {
    var r := a - b * Quot(a, b);
    assert a - r == b * Quot(a, b);
    r
  }

  /** On non-negative operands truncation and Euclidean division agree. */
  lemma QuotRemOfNatural(a: int, b: int)
    requires a >= 0 && b > 0
    ensures Quot(a, b) == a / b && Rem(a, b) == a % b
  {
  }

  /** The result `[jy, jm, jd]`. */
  datatype JalaliDate = JalaliDate(year: int, month: int, day: int)

  /** `g_d_m`: days before each Gregorian month in a common year. */
  const MonthStart: seq<int> := [0, 31, 59, 90, 120, 151, 181, 212, 243, 273, 304, 334]

  /** The Jalali year the count starts from (line 44). */
  function EpochYear(gy: int): int
  {
    if gy <= 1600 then 0 else 979
  }

  /**
   * The day count of line 47, taken from the Gregorian year shifted as on
   * line 45; `gy2` counts the current year's leap day once March is reached.
   */
  function DayCount(gy: int, gm: int, gd: int): int
    requires 1 <= gm <= 12
  {
    var y := gy - (if gy <= 1600 then 621 else 1600);
    var gy2 := if gm > 2 then y + 1 else y;
    365 * y + Quot(gy2 + 3, 4) - Quot(gy2 + 99, 100) + Quot(gy2 + 399, 400) - 80 + gd + MonthStart[gm - 1]
  }

  /** Lines 48-51: whole cycles become years, the rest stays a day count. */
  datatype Reduced = Reduced(years: int, days: int)

  function Reduce(days: int): (r: Reduced)
    ensures days >= 0 ==> 0 <= r.days <= 1460
  {
    var afterGrand := Rem(days, 12053);
    Reduced(33 * Quot(days, 12053) + 4 * Quot(afterGrand, 1461), Rem(afterGrand, 1461))
  }

  /**
   * The cycle reduction loses no day: the years are 33 per 12053-day cycle
   * plus 4 per 1461-day cycle, at most eight of those, and the rest are the
   * remaining days. The 33-year step takes every whole cycle, which makes
   * `grand` and `four` unique.
   */
  lemma ReduceKeepsDays(days: int)
    requires days >= 0
    ensures exists grand, four ::
              && 0 <= grand && 0 <= four <= 8
              && Reduce(days).years == 33 * grand + 4 * four
              && days == 12053 * grand + 1461 * four + Reduce(days).days
              && 1461 * four + Reduce(days).days < 12053
  {
    var g := Rem(days, 12053);
    QuotRemOfNatural(days, 12053);
    QuotRemOfNatural(g, 1461);
    var grand, four := days / 12053, g / 1461;
    assert days == 12053 * grand + 1461 * four + Reduce(days).days;
  }

  /** Line 52: the years the remaining days add, `parseInt((days - 1) / 365)`. */
  function YearsIn(days: int): int
  {
    Quot(days - 1, 365)
  }

  /** Line 53: the day of the year, counted from 0. */
  function DayOfYear(days: int): (d: int)
    ensures 0 <= days <= 1460 ==> 0 <= d <= 365
  {
    if days > 365 then Rem(days - 1, 365) else days
  }

  /** Line 54: the month of a day of the year. */
  function MonthOf(d: int): int
  {
    if d < 186 then 1 + Quot(d, 31) else 7 + Quot(d - 186, 30)
  }

  /** Line 55: the day of the month. */
  function DayOf(d: int): int
  {
    1 + (if d < 186 then Rem(d, 31) else Rem(d - 186, 30))
  }

  /**
   * `gregorianToJalali(gy, gm, gd)`. A month outside 1..12 reads past
   * `g_d_m` and makes every component NaN in the source; here it is None.
   */
  function GregorianToJalali(gy: int, gm: int, gd: int): (r: Option<JalaliDate>)
    ensures r.Some? <==> 1 <= gm <= 12
  {
    if 1 <= gm <= 12 then
      var r := Reduce(DayCount(gy, gm, gd));
      var d := DayOfYear(r.days);
      Some(JalaliDate(EpochYear(gy) + r.years + YearsIn(r.days), MonthOf(d), DayOf(d)))
    else None
  }

  // ---------------------------------------------------------------------
  // The month/day split

  /** The day of the year a Jalali month and day stand for, counted from 0. */
  function DayIndex(month: int, day: int): int
  {
    if month <= 6 then 31 * (month - 1) + day - 1 else 186 + 30 * (month - 7) + day - 1
  }

  /** How many days a Jalali month has in this scheme: 31 for the first six, 30 after. */
  function MonthLength(month: int): int
  {
    if month <= 6 then 31 else 30
  }

  /**
   * For a day of the year in 0..365 the month is in 1..12 and the day fits
   * the month, and the pair names that same day of the year.
   */
  lemma {:induction false} SplitIsValid(d: int)
    requires 0 <= d <= 365
    ensures 1 <= MonthOf(d) <= 12
    ensures 1 <= DayOf(d) <= MonthLength(MonthOf(d))
    ensures DayIndex(MonthOf(d), DayOf(d)) == d
  {
    if d < 186 {
      QuotRemOfNatural(d, 31);
    } else {
      QuotRemOfNatural(d - 186, 30);
    }
  }

  /** Conversely every month and day that fit come back from their day of the year. */
  lemma {:induction false} SplitOfIndex(month: int, day: int)
    requires 1 <= month <= 12 && 1 <= day <= MonthLength(month)
    ensures MonthOf(DayIndex(month, day)) == month && DayOf(DayIndex(month, day)) == day
  {
    var d := DayIndex(month, day);
    if month <= 6 {
      QuotRemOfNatural(d, 31);
      assert d == 31 * (month - 1) + (day - 1);
    } else {
      QuotRemOfNatural(d - 186, 30);
      assert d - 186 == 30 * (month - 7) + (day - 1);
    }
  }

  // ---------------------------------------------------------------------
  // Properties of the conversion

  /**
   * When the day count of line 47 is non-negative the month is in 1..12,
   * the day in 1..31, and months 7..12 never reach day 31.
   */
  lemma ResultInRange(gy: int, gm: int, gd: int)
    requires 1 <= gm <= 12 && DayCount(gy, gm, gd) >= 0
    ensures var r := GregorianToJalali(gy, gm, gd).value;
      1 <= r.month <= 12 && 1 <= r.day <= 31 && (r.month >= 7 ==> r.day <= 30)
  {
    var r := Reduce(DayCount(gy, gm, gd));
    SplitIsValid(DayOfYear(r.days));
  }

  /**
   * The source adds `parseInt((days - 1) / 365)` unconditionally where the
   * published algorithm only adds `(days - 1) / 365` when `days > 365`: on
   * a reduced count the two agree, but only because `parseInt(-1 / 365)`
   * is 0; Euclidean division would take a year off at `days == 0`.
   */
  lemma YearsInMatchesGuardedStep(days: int)
    requires 0 <= days <= 1460
    ensures YearsIn(days) == (if days > 365 then (days - 1) / 365 else 0)
    ensures days == 0 ==> (days - 1) / 365 == -1
  {
    if days > 0 {
      QuotRemOfNatural(days - 1, 365);
    }
  }

  /** Nowruz 1403 fell on 20 March 2024; the reduced day count is exactly 0 there. */
  lemma Nowruz1403()
    ensures Reduce(DayCount(2024, 3, 20)).days == 0
    ensures GregorianToJalali(2024, 3, 20) == Some(JalaliDate(1403, 1, 1))
  {
    assert DayCount(2024, 3, 20) == 154863;
    assert Reduce(154863) == Reduced(424, 0);
  }
}
