/**
 * Values worked out from the engine's formulas: the leap years around
 * 1400, the lengths of Esfand, the validators on edge dates and the day
 * number of 22 March 622, Farvardin 1st of the year 1.
 */
module WorkedValues {
  import opened Outcomes
  import opened DayCount
  import opened Queries
  import opened JalCalFacts
  import opened GregorianDays
  import opened Conversions

  /**
   * The years 1210 to 1634 form the eleventh interval of the break table,
   * 425 years long; whether one of them is leap, and so how long its Esfand
   * is, depends only on how far into the interval it lies.
   */
  lemma LeapInEleventhInterval(jy: int)
    requires 1210 <= jy < 1635
    ensures IsLeapJalaaliYear(jy) == Ok(YearsSinceLeap(jy - 1210, 425) == 0)
    ensures JalaaliMonthLength(jy, 12) == Ok(if YearsSinceLeap(jy - 1210, 425) == 0 then 30 else 29)
  {
    BreaksShape();
    assert Breaks[10] == 1210 && Breaks[11] == 1635;
    JalCalOverLeap(Breaks, jy, 11);
  }

  /** 1403 is a leap year: its Esfand has 30 days. */
  lemma Year1403IsLeap()
    ensures IsLeapJalaaliYear(1403) == Ok(true) && JalaaliMonthLength(1403, 12) == Ok(30)
  {
    assert YearsSinceLeap(193, 425) == 0;
    LeapInEleventhInterval(1403);
  }

  /** 1402 is a common year: its Esfand has 29 days. */
  lemma Year1402IsCommon()
    ensures IsLeapJalaaliYear(1402) == Ok(false) && JalaaliMonthLength(1402, 12) == Ok(29)
  {
    assert YearsSinceLeap(192, 425) == 3;
    LeapInEleventhInterval(1402);
  }

  /** 1400 is a common year. */
  lemma Year1400IsCommon()
    ensures IsLeapJalaaliYear(1400) == Ok(false) && JalaaliMonthLength(1400, 12) == Ok(29)
  {
    assert YearsSinceLeap(190, 425) == 1;
    LeapInEleventhInterval(1400);
  }

  /** The validators on edge dates. */
  lemma ValidatorExamples()
    ensures IsValidJalaaliDate(1403, 12, 30) && !IsValidJalaaliDate(1402, 12, 30)
    ensures !IsValidJalaaliDate(1400, 13, 1) && !IsValidJalaaliDate(3178, 1, 1)
    ensures IsValidGregorianDate(2024, 2, 29) && !IsValidGregorianDate(2023, 2, 29)
    ensures !IsValidGregorianDate(1399, 1, 1) && !IsValidGregorianDate(2000, 2, 30)
  {
    Year1403IsLeap();
    Year1402IsCommon();
    GregorianLeapRuleIgnoresSign(2024);
    GregorianLeapRuleIgnoresSign(2023);
  }

  /** g2d gives 22 March 622 the day number 1948321. */
  lemma EpochDayNumber()
    ensures G2D(622, 3, 22) == 1948321
  {
  }

  /** d2g gives the day 1948321 back as 22 March 622. */
  lemma EpochDayDate()
    ensures D2G(1948321) == GDate(622, 3, 22)
  {
    D2GAfterG2D(622, 3, 22);
    EpochDayNumber();
  }

  /** The leap days of the first three intervals of the break table: 17 + 7 + 39. */
  lemma LeapDaysBeforeFourthInterval()
    ensures LeapDaysBetween(Breaks, 1, 4) == 63
  {
    assert Breaks[0] == -61 && Breaks[1] == 9 && Breaks[2] == 38 && Breaks[3] == 199 && Breaks[4] == 426;
    assert LeapDaysBetween(Breaks, 3, 4) == 39;
    assert LeapDaysBetween(Breaks, 2, 4) == 46;
  }

  /** jalCal's arithmetic for the year 358, 159 years into an interval of 227. */
  lemma Year358Final()
    ensures JalCalFinal(358, 199, 227, 49) == JalCalRecord(3, 979, 21)
  {
    assert GregorianLeapDays(979) == 87;
    assert YearsSinceLeap(159, 227) == 3;
  }

  /** jalCal of the year 358, which lies in the fourth interval of the break table, from 199 to 426. */
  lemma Year358Record()
    ensures JalCal(358) == Ok(JalCalRecord(3, 979, 21))
  {
    BreaksShape();
    assert Breaks[3] == 199 && Breaks[4] == 426;
    JalCalBracket(Breaks, 358, 4);
    LeapDaysBeforeFourthInterval();
    Year358Final();
  }

  /** Farvardin 1st of 358 and 21 March 979 are the same day, in both directions. */
  lemma Year358Alignment()
    ensures ToJalaali(979, 3, 21) == Ok(JDate(358, 1, 1))
    ensures ToGregorian(358, 1, 1) == Ok(GDate(979, 3, 21))
  {
    Year358Record();
    NewYearInJalali(358);
    NewYearInGregorian(358);
  }
}
