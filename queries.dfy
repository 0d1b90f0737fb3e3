/**
 * The calendar queries of the engine: whether a Jalali year is leap, the
 * lengths of Jalali and Gregorian months, the two date validators and the
 * table that renumbers JavaScript's weekdays so that the week starts on
 * Saturday.
 */
module Queries {
  import opened TruncArith
  import opened Outcomes
  import opened DayCount

  // ---------------------------------------------------------------------
  // Jalali years and months
  // ---------------------------------------------------------------------

  /** isLeapJalaaliYear: a year is leap when jalCal counts no years since the last leap year. */
  function IsLeapJalaaliYear(jy: int): (r: Result<bool>)
    ensures r.Ok? <==> -61 <= jy <= 3177
    ensures r.Err? ==> r.error == InvalidJalaaliYear(jy)
  {
    match JalCal(jy)
    case Err(e) => Err(e)
    case Ok(cal) => Ok(cal.leap == 0)
  }

  /**
   * jalaaliMonthLength: 31 days for the first six months (and for any month
   * number up to 6, even zero or negative), 30 for months 7 to 11, and for
   * month 12 or above 30 in a leap year and 29 otherwise.
   */
  function JalaaliMonthLength(jy: int, jm: int): (r: Result<int>)
    ensures r.Err? <==> jm >= 12 && (jy < -61 || jy > 3177)
    ensures r.Err? ==> r.error == InvalidJalaaliYear(jy)
    ensures r.Ok? ==> 29 <= r.value <= 31
    ensures jm <= 6 ==> r == Ok(31)
    ensures 7 <= jm <= 11 ==> r == Ok(30)
    ensures jm >= 12 && r.Ok? ==> (r.value == 30 <==> IsLeapJalaaliYear(jy) == Ok(true))
  {
    if jm <= 6 then Ok(31)
    else if jm <= 11 then Ok(30)
    else
      match IsLeapJalaaliYear(jy)
      case Err(e) => Err(e)
      case Ok(leap) => Ok(if leap then 30 else 29)
  }

  /** The days of a Jalali year: the twelve month lengths added up. */
  function JalaaliYearLength(jy: int): int
    requires -61 <= jy <= 3177
  {
    MonthLengthsUpTo(jy, 12)
  }

  /** The days of months 1..m of the Jalali year jy. */
  function MonthLengthsUpTo(jy: int, m: nat): int
    requires -61 <= jy <= 3177
  {
    if m == 0 then 0 else MonthLengthsUpTo(jy, m - 1) + JalaaliMonthLength(jy, m).value
  }

  /** A Jalali year has 366 days when it is leap and 365 otherwise. */
  lemma JalaaliYearLengthIsLeap(jy: int)
    requires -61 <= jy <= 3177
    ensures JalaaliYearLength(jy) == (if IsLeapJalaaliYear(jy) == Ok(true) then 366 else 365)
  {
    var m := 0;
    while m < 11
      invariant 0 <= m <= 11
      invariant MonthLengthsUpTo(jy, m) == 31 * (if m <= 6 then m else 6) + 30 * (if m <= 6 then 0 else m - 6)
    {
      m := m + 1;
    }
  }

  /**
   * j2d's offset formula agrees with the month lengths: month m+1 begins
   * exactly the length of month m after month m begins. Together with
   * JalaaliOffsetStartsAtZero this pins the formula down month by month.
   */
  lemma {:induction false} JalaaliOffsetFollowsMonthLengths(jy: int, jm: int)
    requires -61 <= jy <= 3177 && 1 <= jm <= 11
    ensures JalaaliOffset(jm + 1, 1) == JalaaliOffset(jm, 1) + JalaaliMonthLength(jy, jm).value
  {
    if jm <= 5 {
      assert TDiv(jm, 7) == 0 && TDiv(jm + 1, 7) == 0;
    } else if jm == 6 {
      assert TDiv(6, 7) == 0 && TDiv(7, 7) == 1;
    } else {
      TDivUnique(jm, 7, 1, jm - 7);
      TDivUnique(jm + 1, 7, 1, jm - 6);
    }
  }

  /** Farvardin 1st is day 0 of the year, and each day of a month adds one. */
  lemma JalaaliOffsetStartsAtZero(jm: int, jd: int)
    ensures JalaaliOffset(1, 1) == 0
    ensures JalaaliOffset(jm, jd) == JalaaliOffset(jm, 1) + jd - 1
  {
  }

  // ---------------------------------------------------------------------
  // Gregorian months
  // ---------------------------------------------------------------------

  /** The 4/100/400 rule, written with JavaScript's `%` (TMod), as gregorianMonthLength does. */
  predicate IsGregorianLeapYear(gy: int) {
    TMod(gy, 4) == 0 && (TMod(gy, 100) != 0 || TMod(gy, 400) == 0)
  }

  /** The sign of the year does not matter to the rule: JavaScript's `%` and Dafny's agree on divisibility. */
  lemma GregorianLeapRuleIgnoresSign(gy: int)
    ensures IsGregorianLeapYear(gy) <==> gy % 4 == 0 && (gy % 100 != 0 || gy % 400 == 0)
  {
    RemainderZeroEitherWay(gy, 4);
    RemainderZeroEitherWay(gy, 100);
    RemainderZeroEitherWay(gy, 400);
  }

  /** A truncated remainder is zero exactly when the Euclidean one is. */
  lemma RemainderZeroEitherWay(a: int, b: int)
    requires b > 0
    ensures TMod(a, b) == 0 <==> a % b == 0
  {
    if a >= 0 {
      TDivAgreesWithEuclid(a, b);
    } else {
      TDivAgreesWithEuclid(-a, b);
      TDivOdd(-a, b);
      var q, r := (-a) / b, (-a) % b;
      var q', r' := a / b, a % b;
      assert -a == q * b + r && a == q' * b + r';
      assert r + r' == (-(q + q')) * b;
      if r == 0 {
        SmallMultipleIsZero(-(q + q'), b);
      } else if r' == 0 {
        SmallMultipleIsZero(-(q + q'), b);
      }
    }
  }

  /**
   * gregorianMonthLength: the `switch` on the month; a month outside 1..12
   * falls through every case and the function returns undefined (None).
   */
  function GregorianMonthLength(gy: int, gm: int): (r: Option<int>)
    ensures r.Some? <==> 1 <= gm <= 12
    ensures r.Some? ==> 28 <= r.value <= 31
    ensures gm == 2 ==> r == Some(if IsGregorianLeapYear(gy) then 29 else 28)
  {
    if gm == 4 || gm == 6 || gm == 9 || gm == 11 then Some(30)
    else if gm == 2 then Some(if IsGregorianLeapYear(gy) then 29 else 28)
    else if 1 <= gm <= 12 then Some(31)
    else None
  }

  /** A Gregorian year has 366 days when the 4/100/400 rule makes it leap and 365 otherwise. */
  lemma GregorianYearLength(gy: int)
    ensures GregorianMonthsUpTo(gy, 12) == (if IsGregorianLeapYear(gy) then 366 else 365)
  {
    var feb := if IsGregorianLeapYear(gy) then 29 else 28;
    assert GregorianMonthsUpTo(gy, 1) == 31;
    assert GregorianMonthsUpTo(gy, 2) == 31 + feb;
    assert GregorianMonthsUpTo(gy, 3) == 62 + feb;
    assert GregorianMonthsUpTo(gy, 4) == 92 + feb;
    assert GregorianMonthsUpTo(gy, 5) == 123 + feb;
    assert GregorianMonthsUpTo(gy, 6) == 153 + feb;
    assert GregorianMonthsUpTo(gy, 7) == 184 + feb;
    assert GregorianMonthsUpTo(gy, 8) == 215 + feb;
    assert GregorianMonthsUpTo(gy, 9) == 245 + feb;
    assert GregorianMonthsUpTo(gy, 10) == 276 + feb;
    assert GregorianMonthsUpTo(gy, 11) == 306 + feb;
  }

  /** The days of months 1..m of the Gregorian year gy. */
  function GregorianMonthsUpTo(gy: int, m: nat): int
    requires m <= 12
  {
    if m == 0 then 0 else GregorianMonthsUpTo(gy, m - 1) + GregorianMonthLength(gy, m).value
  }

  // ---------------------------------------------------------------------
  // Validators
  // ---------------------------------------------------------------------

  /**
   * isValidJalaaliDate: the year in jalCal's range, the month in 1..12 and
   * the day within that month. The `&&` chain stops before
   * jalaaliMonthLength on a year outside the range, so the validator never
   * throws.
   */
  predicate IsValidJalaaliDate(jy: int, jm: int, jd: int) {
    -61 <= jy <= 3177 && 1 <= jm <= 12 && 1 <= jd && jd <= JalaaliMonthLength(jy, jm).value
  }

  /** A valid Jalali date is one jalCal accepts, and j2d converts it. */
  lemma ValidJalaaliDateConverts(jy: int, jm: int, jd: int)
    requires IsValidJalaaliDate(jy, jm, jd)
    ensures JalCal(jy).Ok? && J2D(jy, jm, jd).Ok?
    ensures 0 <= JalaaliOffset(jm, jd) < JalaaliYearLength(jy)
  {
    JalaaliOffsetBeforeMonthEnd(jy, jm, jd);
  }

  /** The offset of a valid date lies before the end of its month, hence of its year. */
  lemma JalaaliOffsetBeforeMonthEnd(jy: int, jm: int, jd: int)
    requires IsValidJalaaliDate(jy, jm, jd)
    ensures JalaaliOffset(jm, jd) == MonthLengthsUpTo(jy, jm - 1) + jd - 1
    ensures 0 <= JalaaliOffset(jm, jd) < JalaaliYearLength(jy)
  {
    OffsetIsMonthLengths(jy, jm);
    MonthLengthsGrow(jy, jm, 12);
  }

  /** j2d's offset of the first day of month m is the length of the months before it. */
  lemma {:induction false} OffsetIsMonthLengths(jy: int, jm: int)
    requires -61 <= jy <= 3177 && 1 <= jm <= 12
    ensures JalaaliOffset(jm, 1) == MonthLengthsUpTo(jy, jm - 1)
  {
    if jm > 1 {
      OffsetIsMonthLengths(jy, jm - 1);
      JalaaliOffsetFollowsMonthLengths(jy, jm - 1);
    }
  }

  /** Adding months adds their lengths: months up to m are no more than months up to m'. */
  lemma {:induction false} MonthLengthsGrow(jy: int, m: nat, m': nat)
    requires -61 <= jy <= 3177 && m <= m'
    ensures MonthLengthsUpTo(jy, m) + (m' - m) * 29 <= MonthLengthsUpTo(jy, m')
    decreases m' - m
  {
    if m < m' {
      MonthLengthsGrow(jy, m, m' - 1);
    }
  }

  /**
   * isValidGregorianDate: a year from 1400 to 3016, the month in 1..12 and
   * the day within that month (the month check comes first, so
   * gregorianMonthLength is never asked about a month it has no case for).
   */
  predicate IsValidGregorianDate(gy: int, gm: int, gd: int) {
    1400 <= gy <= 3016 && 1 <= gm <= 12 && 1 <= gd && gd <= GregorianMonthLength(gy, gm).value
  }

  /** The validator rejects 29 February exactly in the years the 4/100/400 rule calls common. */
  lemma LeapDayValidity(gy: int)
    requires 1400 <= gy <= 3016
    ensures IsValidGregorianDate(gy, 2, 29) <==> IsGregorianLeapYear(gy)
    ensures !IsValidGregorianDate(gy, 2, 30) && !IsValidGregorianDate(gy, 4, 31)
  {
  }

  // ---------------------------------------------------------------------
  // Week days
  // ---------------------------------------------------------------------

  /** weekDayList: JavaScript's weekday (0 = Sunday) renumbered so that Saturday is 0. */
  const WeekDayList: seq<int> := [1, 2, 3, 4, 5, 6, 0]

  /** The lookup getDayOfWeek ends with; undefined (None) outside 0..6, as for an invalid Date. */
  function WeekDayOf(jsDay: int): (r: Option<int>)
    ensures r.Some? <==> 0 <= jsDay < 7
    ensures r.Some? ==> r.value == (jsDay + 1) % 7
  {
    if 0 <= jsDay < 7 then Some(WeekDayList[jsDay]) else None
  }

  /** The renumbering is a permutation of the seven days. */
  lemma WeekDayListIsPermutation()
    ensures multiset(WeekDayList) == multiset{0, 1, 2, 3, 4, 5, 6}
  {
  }

  /** No two weekdays share a number. */
  lemma WeekDayOfInjective(i: int, j: int)
    requires WeekDayOf(i).Some? && WeekDayOf(i) == WeekDayOf(j)
    ensures i == j
  {
  }
}
