/**
 * g2d and d2g undo each other. Both formulas count in "March years": a
 * year that starts on 1 March, so that February, with its leap day, comes
 * last. With Y the March year shifted by 100100 (which keeps every
 * quantity non-negative) and D the day within that March year, g2d is
 *
 *   365 * Y + Y / 4 - (Y / 100 * 3) / 4 + D - 34839655
 *
 * and d2g takes that number apart again: first the 400-year era, then the
 * four-year cycle, then the month from a 153-days-per-five-months rule.
 */
module GregorianDays {
  import opened TruncArith
  import opened Outcomes
  import opened DayCount
  import opened Queries

  /** The months counted from March: March is 0 and February is 11. */
  function MarchMonth(gm: int): int {
    (gm + 9) % 12
  }

  /** The March year holding the date, shifted by 100100; January and February belong to the year before. */
  function MarchYear(gy: int, gm: int): int {
    gy + 100100 - (if gm <= 2 then 1 else 0)
  }

  /** The day within the March year, from 0 (1 March) to 365 (29 February). */
  function MarchDay(gm: int, gd: int): int {
    (153 * MarchMonth(gm) + 2) / 5 + gd - 1
  }

  /** g2d's formula in closed form. */
  lemma G2DClosedForm(gy: int, gm: int, gd: int, y: int, d: int)
    requires 1 <= gm <= 12 && y == MarchYear(gy, gm) >= 0 && d == MarchDay(gm, gd)
    ensures G2D(gy, gm, gd) == 365 * y + y / 4 - (y / 100 * 3) / 4 + d - 34839655
  {
    if gm <= 2 {
      assert TDiv(gm - 8, 6) == -1;
    } else {
      assert TDiv(gm - 8, 6) == 0;
    }
    TDivAgreesWithEuclid(gm + 9, 12);
    TDivAgreesWithEuclid(153 * MarchMonth(gm) + 2, 5);
    TDivUnique(y * 1461, 4, 365 * y + y / 4, y % 4);
    TDivAgreesWithEuclid(y, 100);
    TDivAgreesWithEuclid(y / 100 * 3, 4);
  }

  /** The leap days of a March year y = 100 * c + y2: 25 per century plus those of the years y2 into it. */
  lemma QuarterByCentury(y: int, c: int, y2: int)
    requires y == 100 * c + y2 && 0 <= y2 < 100 && c >= 0
    ensures y / 4 == 25 * c + y2 / 4 && y % 4 == y2 % 4
  {
    TDivUnique(y, 4, 25 * c + y2 / 4, y2 % 4);
    TDivAgreesWithEuclid(y, 4);
  }

  /** The centuries' correction for c = 4 * p + cr centuries: three days for every four centuries, plus those of cr. */
  lemma CenturyCorrection(c: int, p: int, cr: int)
    requires c == 4 * p + cr && 0 <= cr < 4 && p >= 0
    ensures (c * 3) / 4 == 3 * p + (3 * cr) / 4
  {
    TDivUnique(c * 3, 4, 3 * p + (3 * cr) / 4, (3 * cr) % 4);
    TDivAgreesWithEuclid(c * 3, 4);
  }

  /**
   * The days from the start of a century to day d of its year y2: at most
   * 36524, reached only by the leap day of the century's last year, which
   * exists only in the fourth century cr == 0 of an era.
   */
  lemma CenturyDays(y2: int, d: int, cr: int)
    requires 0 <= y2 < 100 && 0 <= d <= 365 && 0 <= cr < 4
    requires d == 365 ==> y2 % 4 == 3 && (y2 == 99 ==> cr == 0)
    ensures 365 * y2 + y2 / 4 + d <= 36524
    ensures 365 * y2 + y2 / 4 + d == 36524 ==> cr == 0
  {
    assert y2 / 4 <= 24;
    if y2 < 99 {
      assert 365 * y2 <= 365 * 98;
    }
  }

  /** The year after y = 100 * c + y2 starts a century exactly when y2 is 99. */
  lemma LastYearOfCentury(y: int, c: int, y2: int)
    requires y == 100 * c + y2 && 0 <= y2 < 100
    ensures (y + 1) % 100 == 0 <==> y2 == 99
  {
    if y2 == 99 {
      assert y + 1 == 100 * (c + 1);
    } else {
      assert y + 1 == 100 * c + (y2 + 1);
    }
  }

  /**
   * The era quotient from the March year's parts: y = 100 * c + y2 years,
   * q4 of them leap by the four-year rule and c34 dropped again by the
   * century rule.
   */
  lemma EraFromParts(y: int, d: int, c: int, y2: int, p: int, cr: int, q4: int, c34: int)
    requires y == 100 * c + y2 && 0 <= y2 < 100 && c >= 0 && c == 4 * p + cr && 0 <= cr < 4 && 0 <= d <= 365
    requires q4 == 25 * c + y2 / 4 && c34 == 3 * p + (3 * cr) / 4
    requires d == 365 ==> y2 % 4 == 3 && (y2 == 99 ==> cr == 0)
    ensures TDiv(4 * (365 * y + q4 - c34 + d) + 43829100, 146097) == c + 300
  {
    CenturyDays(y2, d, cr);
    var e := 365 * y2 + y2 / 4 + d;
    var rest := 3 * cr - 4 * ((3 * cr) / 4) + 4 * e;
    assert 0 <= rest < 146097;
    assert 365 * y + q4 - c34 + d == 36525 * c - 3 * p - (3 * cr) / 4 + e;
    TDivUnique(4 * (365 * y + q4 - c34 + d) + 43829100, 146097, c + 300, rest);
  }

  /**
   * The 400-year era: d2g's first quotient is the century of the March year
   * (plus 300). The longest century is the one whose last year is a
   * leap year; its extra day is what the condition on D = 365 allows.
   */
  lemma EraQuotient(y: int, d: int)
    requires y >= 0 && 0 <= d <= 365
    requires d == 365 ==> y % 4 == 3 && ((y + 1) % 100 != 0 || (y / 100) % 4 == 0)
    ensures TDiv(4 * (365 * y + y / 4 - (y / 100 * 3) / 4 + d) + 43829100, 146097) == y / 100 + 300
  {
    var c, y2 := y / 100, y % 100;
    var p, cr := c / 4, c % 4;
    QuarterByCentury(y, c, y2);
    CenturyCorrection(c, p, cr);
    LastYearOfCentury(y, c, y2);
    EraFromParts(y, d, c, y2, p, cr, y / 4, (c * 3) / 4);
  }

  /** The four-year cycle: j splits into the March year and four times the day (plus 3, less the year in the cycle). */
  lemma CycleQuotient(y: int, d: int)
    requires y >= 0 && 0 <= d <= 365
    requires d == 365 ==> y % 4 == 3
    ensures var j := 1460 * y + 4 * (y / 4) + 4 * d + 3;
      TDiv(j, 1461) == y && TMod(j, 1461) == 4 * d + 3 - y % 4
  {
    var j := 1460 * y + 4 * (y / 4) + 4 * d + 3;
    assert j == y * 1461 + (4 * d + 3 - y % 4);
    TDivUnique(j, 1461, y, 4 * d + 3 - y % 4);
  }

  /** The month and the day from the day of the March year, by the 153-days-per-five-months rule. */
  lemma MonthAndDay(gy: int, gm: int, gd: int)
    requires 1 <= gm <= 12 && 1 <= gd && gd <= GregorianMonthLength(gy, gm).value
    ensures var i := 5 * MarchDay(gm, gd) + 308;
      TDiv(i, 153) == MarchMonth(gm) + 2 &&
      TDiv(TMod(i, 153), 5) + 1 == gd &&
      TMod(TDiv(i, 153), 12) + 1 == gm
  {
    var m := MarchMonth(gm);
    var t := (153 * m + 2) % 5;
    var i := 5 * MarchDay(gm, gd) + 308;
    assert 0 <= m <= 11;
    assert gd == 31 ==> t >= 2;
    assert i == (m + 2) * 153 + (5 * gd - 1 - t);
    TDivUnique(i, 153, m + 2, 5 * gd - 1 - t);
    TDivUnique(5 * gd - 1 - t, 5, gd - 1, 4 - t);
    TDivAgreesWithEuclid(m + 2, 12);
  }

  /** d2g's last steps, read off its value j (the day count in quarter days, shifted and with the Gregorian correction applied). */
  lemma D2GFromCycle(jdn: int, j: int)
    requires j == 4 * jdn + 139361631 + TDiv(TDiv(4 * jdn + 183187720, 146097) * 3, 4) * 4 - 3908
    ensures var i := TDiv(TMod(j, 1461), 4) * 5 + 308;
      D2G(jdn).gm == TMod(TDiv(i, 153), 12) + 1 && D2G(jdn).gd == TDiv(TMod(i, 153), 5) + 1 &&
      D2G(jdn).gy == TDiv(j, 1461) - 100100 + TDiv(8 - D2G(jdn).gm, 6)
  {
  }

  /**
   * d2g of the day D of the March year Y (both as in G2DClosedForm): the
   * era and the cycle come out as Y, and the month and day are read off
   * 5 * D + 308.
   */
  lemma D2GOfMarchCount(jdn: int, y: int, d: int)
    requires y >= 0 && 0 <= d <= 365
    requires d == 365 ==> y % 4 == 3 && ((y + 1) % 100 != 0 || (y / 100) % 4 == 0)
    requires jdn == 365 * y + y / 4 - (y / 100 * 3) / 4 + d - 34839655
    ensures var i := 5 * d + 308;
      D2G(jdn).gm == TMod(TDiv(i, 153), 12) + 1 && D2G(jdn).gd == TDiv(TMod(i, 153), 5) + 1 &&
      D2G(jdn).gy == y - 100100 + TDiv(8 - D2G(jdn).gm, 6)
  {
    EraQuotient(y, d);
    var era := TDiv(4 * jdn + 183187720, 146097);
    assert era == y / 100 + 300;
    TDivAgreesWithEuclid(era * 3, 4);
    assert TDiv(era * 3, 4) == 225 + (y / 100 * 3) / 4;
    var j := 4 * jdn + 139361631 + TDiv(era * 3, 4) * 4 - 3908;
    assert j == 1460 * y + 4 * (y / 4) + 4 * d + 3;
    CycleQuotient(y, d);
    TDivUnique(4 * d + 3 - y % 4, 4, d, 3 - y % 4);
    assert TDiv(TMod(j, 1461), 4) * 5 + 308 == 5 * d + 308;
    D2GFromCycle(jdn, j);
  }

  /** d2g of the day D of the March year Y is the date (gy, gm, gd) whose month and day 5 * D + 308 encodes. */
  lemma D2GOfMarchDate(jdn: int, y: int, d: int, gy: int, gm: int, gd: int)
    requires y >= 0 && 0 <= d <= 365
    requires d == 365 ==> y % 4 == 3 && ((y + 1) % 100 != 0 || (y / 100) % 4 == 0)
    requires jdn == 365 * y + y / 4 - (y / 100 * 3) / 4 + d - 34839655
    requires TMod(TDiv(5 * d + 308, 153), 12) + 1 == gm && TDiv(TMod(5 * d + 308, 153), 5) + 1 == gd
    requires y - 100100 + TDiv(8 - gm, 6) == gy
    ensures D2G(jdn) == GDate(gy, gm, gd)
  {
    D2GOfMarchCount(jdn, y, d);
  }

  /** A valid date's day of the March year lies in 0..365, and 365 is 29 February of a leap year. */
  lemma MarchDayRange(gy: int, gm: int, gd: int)
    requires 1 <= gm <= 12 && 1 <= gd && gd <= GregorianMonthLength(gy, gm).value
    ensures 0 <= MarchDay(gm, gd) <= 365
    ensures MarchDay(gm, gd) == 365 ==> gm == 2 && gd == 29 && gy % 4 == 0 && (gy % 100 != 0 || gy % 400 == 0)
  {
    assert 0 <= MarchMonth(gm) <= 11;
    GregorianLeapRuleIgnoresSign(gy);
  }

  /** The March year that ends in the leap day of a leap year gy is y = gy + 100099 (shifted as in MarchYear). */
  lemma LeapMarchYear(gy: int, y: int)
    requires gy % 4 == 0 && (gy % 100 != 0 || gy % 400 == 0) && y == gy + 100099 && y >= 0
    ensures y % 4 == 3 && ((y + 1) % 100 != 0 || (y / 100) % 4 == 0)
  {
    var q := gy / 100;
    assert y == 4 * (gy / 4 + 25024) + 3;
    if gy % 100 == 0 {
      assert gy == 400 * (gy / 400);
      assert q == 4 * (gy / 400);
      assert y == 100 * (q + 1000) + 99;
      assert y / 100 == 4 * (gy / 400 + 250);
    }
  }

  /**
   * What d2g needs to know of a valid date: its March year and day are in
   * range, a day 365 is a leap day, and 5 * D + 308 encodes its month and
   * day while the March year gives back its year.
   */
  lemma ValidMarchCount(gy: int, gm: int, gd: int)
    requires gy >= -100098 && 1 <= gm <= 12 && 1 <= gd && gd <= GregorianMonthLength(gy, gm).value
    ensures var y, d := MarchYear(gy, gm), MarchDay(gm, gd);
      y >= 0 && 0 <= d <= 365 &&
      (d == 365 ==> y % 4 == 3 && ((y + 1) % 100 != 0 || (y / 100) % 4 == 0)) &&
      TMod(TDiv(5 * d + 308, 153), 12) + 1 == gm && TDiv(TMod(5 * d + 308, 153), 5) + 1 == gd &&
      y - 100100 + TDiv(8 - gm, 6) == gy
  {
    var y, d := MarchYear(gy, gm), MarchDay(gm, gd);
    MarchDayRange(gy, gm, gd);
    if d == 365 {
      LeapMarchYear(gy, y);
    }
    MonthAndDay(gy, gm, gd);
    if gm <= 2 {
      assert TDiv(8 - gm, 6) == 1;
    } else {
      assert TDiv(8 - gm, 6) == 0;
    }
  }

  /** d2g of the day that the closed form of g2d gives a valid date is that date. */
  lemma D2GOfClosedForm(gy: int, gm: int, gd: int, jdn: int)
    requires gy >= -100098 && 1 <= gm <= 12 && 1 <= gd && gd <= GregorianMonthLength(gy, gm).value
    requires var y := MarchYear(gy, gm);
      jdn == 365 * y + y / 4 - (y / 100 * 3) / 4 + MarchDay(gm, gd) - 34839655
    ensures D2G(jdn) == GDate(gy, gm, gd)
  {
    ValidMarchCount(gy, gm, gd);
    D2GOfMarchDate(jdn, MarchYear(gy, gm), MarchDay(gm, gd), gy, gm, gd);
  }

  /** d2g(g2d(date)) is the date, for every valid Gregorian date from the year -100098 on. */
  lemma D2GAfterG2D(gy: int, gm: int, gd: int)
    requires gy >= -100098 && 1 <= gm <= 12 && 1 <= gd && gd <= GregorianMonthLength(gy, gm).value
    ensures D2G(G2D(gy, gm, gd)) == GDate(gy, gm, gd)
  {
    G2DClosedForm(gy, gm, gd, MarchYear(gy, gm), MarchDay(gm, gd));
    D2GOfClosedForm(gy, gm, gd, G2D(gy, gm, gd));
  }

  /** d2g's month and day from a non-negative i: a month in 1..12 and a day in 1..31. */
  lemma MonthDayOfCount(i: int)
    requires i >= 0
    ensures 1 <= TMod(TDiv(i, 153), 12) + 1 <= 12
    ensures 1 <= TDiv(TMod(i, 153), 5) + 1 <= 31
  {
    TDivAgreesWithEuclid(i, 153);
    TDivAgreesWithEuclid(i / 153, 12);
    TDivAgreesWithEuclid(i % 153, 5);
  }

  /**
   * From 1 March of the year -100100 on (day -34839655, where every
   * intermediate of d2g is non-negative), d2g always yields a month in
   * 1..12 and a day in 1..31.
   */
  lemma D2GMonthDayRange(jdn: int)
    requires jdn >= -34839655
    ensures 1 <= D2G(jdn).gm <= 12 && 1 <= D2G(jdn).gd <= 31
  {
    var a := 4 * jdn + 183187720;
    TDivAgreesWithEuclid(a, 146097);
    assert a / 146097 >= 300;
    var era := TDiv(a, 146097);
    TDivAgreesWithEuclid(era * 3, 4);
    var j := 4 * jdn + 139361631 + TDiv(era * 3, 4) * 4 - 3908;
    assert j >= 0;
    TModSign(j, 1461);
    TDivAgreesWithEuclid(TMod(j, 1461), 4);
    MonthDayOfCount(TDiv(TMod(j, 1461), 4) * 5 + 308);
    D2GFromCycle(jdn, j);
  }

  /** Distinct valid dates have distinct day numbers. */
  lemma G2DInjective(gy: int, gm: int, gd: int, gy': int, gm': int, gd': int)
    requires gy >= -100098 && 1 <= gm <= 12 && 1 <= gd && gd <= GregorianMonthLength(gy, gm).value
    requires gy' >= -100098 && 1 <= gm' <= 12 && 1 <= gd' && gd' <= GregorianMonthLength(gy', gm').value
    requires G2D(gy, gm, gd) == G2D(gy', gm', gd')
    ensures gy == gy' && gm == gm' && gd == gd'
  {
    D2GAfterG2D(gy, gm, gd);
    D2GAfterG2D(gy', gm', gd');
  }
}
