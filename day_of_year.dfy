/**
 * The two halves of a Jalali year as d2j reads them: the first six months
 * of 31 days (days 0..185 of the year) and the remaining months of 30 days,
 * the last one cut to 29 in a common year. j2d's offset formula and d2j's
 * month/day arithmetic undo each other on valid dates.
 */
module DayOfYear {
  import opened TruncArith
  import opened Outcomes
  import opened DayCount
  import opened Queries

  /** j2d's offset of a date in the first six months. */
  lemma OffsetInFirstMonths(jm: int, jd: int)
    requires 1 <= jm <= 6 && 1 <= jd <= 31
    ensures JalaaliOffset(jm, jd) == (jm - 1) * 31 + jd - 1
  {
    assert TDiv(jm, 7) == 0;
  }

  /** j2d's offset of a date in the later months, counted from day 186 (Mehr 1st). */
  lemma OffsetInLaterMonths(jm: int, jd: int)
    requires 7 <= jm <= 12 && 1 <= jd <= 30
    ensures JalaaliOffset(jm, jd) == 186 + (jm - 7) * 30 + jd - 1
  {
    TDivUnique(jm, 7, 1, jm - 7);
  }

  /** d2j's arithmetic recovers every valid date from j2d's offset. */
  lemma OffsetThenDate(jy: int, jm: int, jd: int)
    requires IsValidJalaaliDate(jy, jm, jd)
    ensures var k := JalaaliOffset(jm, jd);
      0 <= k &&
      DateOfYearDay(jy, k) == JDate(jy, jm, jd)
  {
    if jm <= 6 {
      OffsetInFirstMonths(jm, jd);
      TDivUnique((jm - 1) * 31 + jd - 1, 31, jm - 1, jd - 1);
    } else {
      OffsetInLaterMonths(jm, jd);
      TDivUnique((jm - 7) * 30 + jd - 1, 30, jm - 7, jd - 1);
    }
  }

  /** Days 0..185 of a year are valid dates of the first six months, and j2d gives back the day. */
  lemma FirstMonthsDateThenOffset(jy: int, k: int)
    requires -61 <= jy <= 3177 && 0 <= k <= 185
    ensures var d := FirstMonthsDate(jy, k);
      IsValidJalaaliDate(jy, d.jm, d.jd) && d.jm <= 6 && JalaaliOffset(d.jm, d.jd) == k
  {
    var q, r := k / 31, k % 31;
    TDivUnique(k, 31, q, r);
    OffsetInFirstMonths(q + 1, r + 1);
  }

  /**
   * Day k after Mehr 1st, for k below the days left in the year (179 in a
   * common year, 180 in a leap year), is a valid date of the later months,
   * and j2d gives back day 186 + k.
   */
  lemma LaterMonthsDateThenOffset(jy: int, k: int)
    requires -61 <= jy <= 3177 && 0 <= k < JalaaliYearLength(jy) - 186
    ensures var d := LaterMonthsDate(jy, k);
      IsValidJalaaliDate(jy, d.jm, d.jd) && d.jm >= 7 && JalaaliOffset(d.jm, d.jd) == 186 + k
  {
    JalaaliYearLengthIsLeap(jy);
    var q, r := k / 30, k % 30;
    TDivUnique(k, 30, q, r);
    OffsetInLaterMonths(q + 7, r + 1);
  }

  /** Every day k of a Jalali year is a valid date of that year, and j2d gives back k. */
  lemma DateThenOffset(jy: int, k: int)
    requires -61 <= jy <= 3177 && 0 <= k < JalaaliYearLength(jy)
    ensures var d := DateOfYearDay(jy, k);
      d.jy == jy && IsValidJalaaliDate(jy, d.jm, d.jd) && JalaaliOffset(d.jm, d.jd) == k
  {
    if k <= 185 {
      FirstMonthsDateThenOffset(jy, k);
    } else {
      LaterMonthsDateThenOffset(jy, k - 186);
    }
  }

  /**
   * d2j's count for a day before Farvardin 1st (k < 0): the date in the
   * year before whose offset is that year's length plus k, when `extra`
   * (1 if jalCal's leap counter for the current year is 1) is the day that
   * year has beyond 365.
   */
  lemma PreviousYearDate(jy: int, k: int, extra: int)
    requires -61 <= jy - 1 <= 3177 && (extra == 0 || extra == 1)
    requires JalaaliYearLength(jy - 1) == 365 + extra
    requires -(365 + extra) + 186 <= k < 0
    ensures var d := LaterMonthsDate(jy - 1, k + 179 + extra);
      IsValidJalaaliDate(jy - 1, d.jm, d.jd) && JalaaliOffset(d.jm, d.jd) == 365 + extra + k
  {
    LaterMonthsDateThenOffset(jy - 1, k + 179 + extra);
  }
}
