/**
 * The day-count kernel of ARMCalendar: Gregorian dates to Julian Day
 * Numbers and back (g2d, d2g), the intercalation record of a Jalali year
 * read off the 33-year break table (jalCal), and Jalali dates to day
 * numbers and back (j2d, d2j).
 */
module DayCount {
  import opened TruncArith
  import opened Outcomes

  datatype GDate = GDate(gy: int, gm: int, gd: int)
  datatype JDate = JDate(jy: int, jm: int, jd: int)

  /**
   * What jalCal returns for a Jalali year: `leap` counts the years since the
   * last leap year (0 means this year is leap), `gy` is the Gregorian year in
   * which the Jalali year begins and `march` the day of March on which
   * Farvardin 1st falls.
   */
  datatype JalCalRecord = JalCalRecord(leap: int, gy: int, march: int)

  /** The Jalali years at which the 33-year rule starts afresh. */
  const Breaks: seq<int> :=
    [-61, 9, 38, 199, 426, 686, 756, 818, 1111, 1181, 1210,
     1635, 2060, 2097, 2192, 2262, 2324, 2394, 2456, 3178]

  // ---------------------------------------------------------------------
  // Gregorian kernel
  // ---------------------------------------------------------------------

  /** g2d: the Julian Day Number of a Gregorian date. */
  function G2D(gy: int, gm: int, gd: int): int {
    var d := TDiv((gy + TDiv(gm - 8, 6) + 100100) * 1461, 4)
             + TDiv(153 * TMod(gm + 9, 12) + 2, 5)
             + gd - 34840408;
    d - TDiv(TDiv(gy + 100100 + TDiv(gm - 8, 6), 100) * 3, 4) + 752
  }

  /** d2g: the Gregorian date of a Julian Day Number. */
  function D2G(jdn: int): GDate {
    var j0 := 4 * jdn + 139361631;
    var j := j0 + TDiv(TDiv(4 * jdn + 183187720, 146097) * 3, 4) * 4 - 3908;
    var i := TDiv(TMod(j, 1461), 4) * 5 + 308;
    var gd := TDiv(TMod(i, 153), 5) + 1;
    var gm := TMod(TDiv(i, 153), 12) + 1;
    var gy := TDiv(j, 1461) - 100100 + TDiv(8 - gm, 6);
    GDate(gy, gm, gd)
  }

  // ---------------------------------------------------------------------
  // The intercalation record (jalCal)
  // ---------------------------------------------------------------------

  /*
   * jalCal's scan is written over an arbitrary table `breaks` (at least two
   * entries) so that its proof does not depend on the table's values; the
   * engine always passes Breaks.
   */

  /** The length, in years, of the t-th interval of a break table. */
  function Jump(breaks: seq<int>, t: int): int
    requires 1 <= t < |breaks|
  {
    breaks[t] - breaks[t - 1]
  }

  /** The leap days an entire interval of the given length adds to `leapJ`. */
  function IntervalLeapDays(jump: int): int {
    TDiv(jump, 33) * 8 + TDiv(TMod(jump, 33), 4)
  }

  /** The Gregorian leap days up to the year gy, in the same reckoning. */
  function GregorianLeapDays(gy: int): int {
    TDiv(gy, 4) - TDiv((TDiv(gy, 100) + 1) * 3, 4) - 150
  }

  /** The years since the last leap year, n years into an interval of the given length. */
  function YearsSinceLeap(n: int, jump: int): int {
    var n' := if jump - n < 6 then n - jump + TDiv(jump + 4, 33) * 33 else n;
    var leap := TMod(TMod(n' + 1, 33) - 1, 4);
    if leap == -1 then 4 else leap
  }

  /** n years into an interval of at least 29 years, the years since the last leap year lie in 0..4. */
  lemma YearsSinceLeapRange(n: int, jump: int)
    requires 0 <= n < jump && jump >= 29
    ensures 0 <= YearsSinceLeap(n, jump) <= 4
  {
    var n' := if jump - n < 6 then n - jump + TDiv(jump + 4, 33) * 33 else n;
    if jump - n < 6 {
      TDivTruncates(jump + 4, 33);
      assert TDiv(jump + 4, 33) >= 1;
    }
    assert n' >= 0;
    TModSign(n' + 1, 33);
    TModSign(TMod(n' + 1, 33) - 1, 4);
  }

  /**
   * What jalCal computes once its loop has stopped: the year jy lies in the
   * interval that starts at the break jp and is `jump` years long, and
   * `leapJ` counts the leap days of all earlier intervals.
   */
  function JalCalFinal(jy: int, jp: int, jump: int, leapJ: int): (r: JalCalRecord)
    ensures r.gy == jy + 621
  {
    var n := jy - jp;
    var leapJ' := leapJ + TDiv(n, 33) * 8 + TDiv(TMod(n, 33) + 3, 4)
                  + (if TMod(jump, 33) == 4 && jump - n == 4 then 1 else 0);
    var gy := jy + 621;
    JalCalRecord(YearsSinceLeap(n, jump), gy, 20 + leapJ' - GregorianLeapDays(gy))
  }

  /**
   * Where jalCal's loop stops: jp is the break that opens the interval
   * holding the year, jump that interval's length and leapJ the leap-day
   * count of the intervals before it.
   */
  datatype ScanStop = ScanStop(jp: int, jump: int, leapJ: int)

  /** jalCal's loop from index i on, with jp the previous break and leapJ the count so far. */
  function JalCalScan(breaks: seq<int>, jy: int, i: nat, jp: int, leapJ: int): (s: ScanStop)
    requires 1 <= i < |breaks| && jp == breaks[i - 1] <= jy < breaks[|breaks| - 1]
    ensures s.jp <= jy < s.jp + s.jump
    decreases |breaks| - i
  {
    var jm := breaks[i];
    if jy < jm then ScanStop(jp, jm - jp, leapJ)
    else JalCalScan(breaks, jy, i + 1, jm, leapJ + IntervalLeapDays(jm - jp))
  }

  /** jalCal over a break table: the range check, the scan, then the arithmetic. */
  function JalCalOver(breaks: seq<int>, jy: int): (r: Result<JalCalRecord>)
    requires |breaks| >= 2
    ensures r.Ok? <==> breaks[0] <= jy < breaks[|breaks| - 1]
    ensures r.Err? ==> r.error == InvalidJalaaliYear(jy)
    ensures r.Ok? ==> r.value.gy == jy + 621
  {
    if jy < breaks[0] || jy >= breaks[|breaks| - 1] then Err(InvalidJalaaliYear(jy))
    else
      var s := JalCalScan(breaks, jy, 1, breaks[0], -14);
      Ok(JalCalFinal(jy, s.jp, s.jump, s.leapJ))
  }

  /** jalCal: the intercalation record of a Jalali year, or its out-of-range error. */
  function JalCal(jy: int): (r: Result<JalCalRecord>)
    ensures r.Ok? <==> -61 <= jy <= 3177
    ensures r.Err? ==> r.error == InvalidJalaaliYear(jy)
    ensures r.Ok? ==> r.value.gy == jy + 621
  {
    JalCalOver(Breaks, jy)
  }

  /** jalCal's code over a break table: a loop that stops at the bracketing break. */
  method ScanJalCal(breaks: seq<int>, jy: int) returns (r: Result<JalCalRecord>)
    requires |breaks| >= 2
    ensures r == JalCalOver(breaks, jy)
  {
    var bl := |breaks|;
    var leapJ := -14;
    var jp := breaks[0];
    if jy < jp || jy >= breaks[bl - 1] {
      return Err(InvalidJalaaliYear(jy));
    }
    ghost var scan := JalCalScan(breaks, jy, 1, jp, leapJ);
    var jump := 0;
    var i := 1;
    while i < bl
      invariant 1 <= i < bl
      invariant jp == breaks[i - 1] <= jy
      invariant JalCalScan(breaks, jy, i, jp, leapJ) == scan
      decreases bl - i
    {
      var jm := breaks[i];
      jump := jm - jp;
      if jy < jm {
        break;
      }
      leapJ := leapJ + IntervalLeapDays(jump);
      jp := jm;
      i := i + 1;
    }
    assert scan == ScanStop(jp, jump, leapJ);
    // The straight-line arithmetic after the loop is JalCalFinal.
    r := Ok(JalCalFinal(jy, jp, jump, leapJ));
  }

  /** jalCal: the loop run over the engine's own table. */
  method ComputeJalCal(jy: int) returns (r: Result<JalCalRecord>)
    ensures r == JalCal(jy)
  {
    r := ScanJalCal(Breaks, jy);
  }

  // ---------------------------------------------------------------------
  // Jalali kernel
  // ---------------------------------------------------------------------

  /** The days from Farvardin 1st to (jm, jd), as j2d computes them: (jm - 1) * 31 - div(jm, 7) * (jm - 7) + jd - 1. */
  function JalaaliOffset(jm: int, jd: int): int {
    (jm - 1) * 31 - Times(TDiv(jm, 7), jm - 7) + jd - 1
  }

  /** j2d: the Julian Day Number of a Jalali date. */
  function J2D(jy: int, jm: int, jd: int): (r: Result<int>)
    ensures r.Ok? <==> JalCal(jy).Ok?
    ensures r.Err? ==> r.error == InvalidJalaaliYear(jy)
  {
    match JalCal(jy)
    case Err(e) => Err(e)
    case Ok(cal) => Ok(G2D(cal.gy, 3, cal.march) + JalaaliOffset(jm, jd))
  }

  /** j2d once jalCal has answered for the year (gy is the Gregorian year in which it begins). */
  lemma J2DFromRecord(jy: int, jm: int, jd: int, cal: JalCalRecord, gy: int, k: int, jdn: int)
    requires JalCal(jy) == Ok(cal) && gy == jy + 621
    requires JalaaliOffset(jm, jd) == k && jdn == G2D(gy, 3, cal.march) + k
    ensures J2D(jy, jm, jd) == Ok(jdn)
  {
  }

  /** The date k days after Farvardin 1st, for k in the first six months. */
  function FirstMonthsDate(jy: int, k: int): JDate {
    JDate(jy, 1 + TDiv(k, 31), TMod(k, 31) + 1)
  }

  /** The date k days after Mehr 1st (the seventh month). */
  function LaterMonthsDate(jy: int, k: int): JDate {
    JDate(jy, 7 + TDiv(k, 30), TMod(k, 30) + 1)
  }

  /** The date on day k (counted from 0) of the Jalali year jy, as d2j reads it. */
  function DateOfYearDay(jy: int, k: int): JDate {
    if k <= 185 then FirstMonthsDate(jy, k) else LaterMonthsDate(jy, k - 186)
  }

  /**
   * The Jalali date of a Julian Day Number jdn that falls in the Gregorian
   * year gy, once jalCal has been run on the Jalali year gy - 621 that
   * starts in it: k counts the days since that year's Farvardin 1st, and a
   * negative k falls in the last months of the year before.
   */
  function DateFromRecord(jdn: int, gy: int, cal: JalCalRecord): JDate {
    var jy := gy - 621;
    var k := jdn - G2D(gy, 3, cal.march);
    if k >= 0 then
      DateOfYearDay(jy, k)
    else
      LaterMonthsDate(jy - 1, k + 179 + (if cal.leap == 1 then 1 else 0))
  }

  /** d2j: the Jalali date of a Julian Day Number. */
  function D2J(jdn: int): (r: Result<JDate>)
    ensures r.Ok? <==> JalCal(D2G(jdn).gy - 621).Ok?
    ensures r.Err? ==> r.error == InvalidJalaaliYear(D2G(jdn).gy - 621)
  {
    D2JInYear(jdn, D2G(jdn).gy)
  }

  /** d2j once d2g has placed the day in the Gregorian year gy. */
  function D2JInYear(jdn: int, gy: int): Result<JDate> {
    match JalCal(gy - 621)
    case Err(e) => Err(e)
    case Ok(cal) => Ok(DateFromRecord(jdn, gy, cal))
  }

  /** D2J is D2JInYear for the Gregorian year that d2g gives the day. */
  lemma D2JIsInYear(jdn: int, gy: int)
    requires D2G(jdn).gy == gy
    ensures D2J(jdn) == D2JInYear(jdn, gy)
  {
  }

  /** Once jalCal has answered for the Jalali year beginning in gy, D2JInYear is that answer's date. */
  lemma D2JInYearFromRecord(jdn: int, gy: int, cal: JalCalRecord)
    requires JalCal(gy - 621) == Ok(cal)
    ensures D2JInYear(jdn, gy) == Ok(DateFromRecord(jdn, gy, cal))
  {
  }

  /** The date of a day k >= 0 days after Farvardin 1st of the Jalali year beginning in the Gregorian year gy. */
  lemma DateFromRecordOnOrAfterStart(jdn: int, gy: int, cal: JalCalRecord, k: int)
    requires k == jdn - G2D(gy, 3, cal.march) && k >= 0
    ensures DateFromRecord(jdn, gy, cal) == DateOfYearDay(gy - 621, k)
  {
  }

  /** d2j of a day on or after Farvardin 1st of the Jalali year that begins in the day's Gregorian year gy. */
  lemma D2JOnOrAfterStart(jdn: int, gy: int, cal: JalCalRecord, k: int)
    requires D2G(jdn).gy == gy && JalCal(gy - 621) == Ok(cal)
    requires k == jdn - G2D(gy, 3, cal.march) && k >= 0
    ensures D2J(jdn) == Ok(DateOfYearDay(gy - 621, k))
  {
    D2JIsInYear(jdn, gy);
    D2JInYearFromRecord(jdn, gy, cal);
    DateFromRecordOnOrAfterStart(jdn, gy, cal, k);
  }

  /** The second half of d2j: k and jy updated step by step, as the source does. */
  method DateOfDay(jdn: int, gy: int, cal: JalCalRecord) returns (d: JDate)
    ensures d == DateFromRecord(jdn, gy, cal)
  {
    var jy := gy - 621;
    var jdn1f := G2D(gy, 3, cal.march);
    var k := jdn - jdn1f;
    if k >= 0 {
      if k <= 185 {
        return FirstMonthsDate(jy, k);
      } else {
        k := k - 186;
      }
    } else {
      jy := jy - 1;
      k := k + 179;
      if cal.leap == 1 {
        k := k + 1;
      }
    }
    d := LaterMonthsDate(jy, k);
  }

  /** d2j as the source runs it: jalCal's loop, then the day arithmetic. */
  method ComputeD2J(jdn: int) returns (r: Result<JDate>)
    ensures r == D2J(jdn)
  {
    var gy := D2G(jdn).gy;
    var res := ComputeJalCal(gy - 621);
    if res.Err? {
      return Err(res.error);
    }
    D2JIsInYear(jdn, gy);
    D2JInYearFromRecord(jdn, gy, res.value);
    var d := DateOfDay(jdn, gy, res.value);
    r := Ok(d);
  }
}
