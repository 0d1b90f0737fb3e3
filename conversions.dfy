/**
 * The public conversions of ARMCalendar: toJalaali and toGregorian, which
 * go through the Julian Day Number, and the argument-checking wrappers
 * jalaliToGregorian and gregorianToJalali, which accept a date object or a
 * "yyyy/mm/dd" string and throw a message for anything else.
 */
module Conversions {
  import opened TruncArith
  import opened Outcomes
  import opened DayCount
  import opened Queries
  import opened GregorianDays
  import opened DayOfYear
  import opened JalCalFacts

  // ---------------------------------------------------------------------
  // toJalaali and toGregorian
  // ---------------------------------------------------------------------

  /**
   * toJalaali: the Jalali date of a Gregorian date, or jalCal's error when
   * the date falls in a Gregorian year whose Jalali counterpart is out of
   * range. The Jalali year starts in March, so the answer is in the
   * Gregorian year less 621 or less 622.
   */
  function ToJalaali(gy: int, gm: int, gd: int): (r: Result<JDate>)
    ensures r.Err? ==> r.error == InvalidJalaaliYear(D2G(G2D(gy, gm, gd)).gy - 621)
    ensures r.Ok? ==> D2G(G2D(gy, gm, gd)).gy - 622 <= r.value.jy <= D2G(G2D(gy, gm, gd)).gy - 621
  {
    D2J(G2D(gy, gm, gd))
  }

  /** toGregorian: the Gregorian date of a Jalali date, or jalCal's error for a year out of range. */
  function ToGregorian(jy: int, jm: int, jd: int): (r: Result<GDate>)
    ensures r.Ok? <==> -61 <= jy <= 3177
    ensures r.Err? ==> r.error == InvalidJalaaliYear(jy)
  {
    match J2D(jy, jm, jd)
    case Err(e) => Err(e)
    case Ok(jdn) => Ok(D2G(jdn))
  }

  /**
   * For a well-formed Gregorian date, toJalaali succeeds exactly for the
   * years 560 to 3798, the Gregorian years in which the Jalali years -61 to
   * 3177 begin; from 3799 on it throws for the Jalali year 3178, even for
   * the dates of 3799 that still belong to the Jalali year 3177.
   */
  lemma ToJalaaliDefined(gy: int, gm: int, gd: int)
    requires gy >= -100098 && 1 <= gm <= 12 && 1 <= gd && gd <= GregorianMonthLength(gy, gm).value
    ensures ToJalaali(gy, gm, gd).Ok? <==> 560 <= gy <= 3798
    ensures ToJalaali(gy, gm, gd).Err? ==> ToJalaali(gy, gm, gd).error == InvalidJalaaliYear(gy - 621)
    ensures ToJalaali(gy, gm, gd).Ok? ==> gy - 622 <= ToJalaali(gy, gm, gd).value.jy <= gy - 621
  {
    D2GAfterG2D(gy, gm, gd);
  }

  /** toGregorian is d2g of j2d's day number. */
  lemma ToGregorianOfDay(jy: int, jm: int, jd: int, jdn: int)
    requires J2D(jy, jm, jd) == Ok(jdn)
    ensures ToGregorian(jy, jm, jd) == Ok(D2G(jdn))
  {
  }

  /** toGregorian of a date of a year jalCal accepts: d2g of the year's start plus j2d's offset. */
  lemma ToGregorianFromYearStart(jy: int, jm: int, jd: int, cal: JalCalRecord, gy: int, jdn: int)
    requires JalCal(jy) == Ok(cal) && gy == jy + 621
    requires jdn == G2D(gy, 3, cal.march) + JalaaliOffset(jm, jd)
    ensures ToGregorian(jy, jm, jd) == Ok(D2G(jdn))
  {
    J2DFromRecord(jy, jm, jd, cal, gy, JalaaliOffset(jm, jd), jdn);
    ToGregorianOfDay(jy, jm, jd, jdn);
  }

  /** toJalaali of a Gregorian date k >= 0 days after Farvardin 1st of the Jalali year beginning in its year. */
  lemma ToJalaaliFromYearStart(gy: int, gm: int, gd: int, cal: JalCalRecord, k: int)
    requires gy >= -100098 && 1 <= gm <= 12 && 1 <= gd && gd <= GregorianMonthLength(gy, gm).value
    requires JalCal(gy - 621) == Ok(cal)
    requires k == G2D(gy, gm, gd) - G2D(gy, 3, cal.march) && k >= 0
    ensures ToJalaali(gy, gm, gd) == Ok(DateOfYearDay(gy - 621, k))
  {
    D2GAfterG2D(gy, gm, gd);
    D2JOnOrAfterStart(G2D(gy, gm, gd), gy, cal, k);
  }

  /**
   * Farvardin 1st of every year is the day of March that jalCal names, when
   * that is a day of March.
   */
  lemma NewYearInGregorian(jy: int)
    requires -61 <= jy <= 3177 && 1 <= JalCal(jy).value.march <= 31
    ensures ToGregorian(jy, 1, 1) == Ok(GDate(jy + 621, 3, JalCal(jy).value.march))
  {
    var cal := JalCal(jy).value;
    OffsetInFirstMonths(1, 1);
    ToGregorianFromYearStart(jy, 1, 1, cal, jy + 621, G2D(jy + 621, 3, cal.march));
    D2GAfterG2D(jy + 621, 3, cal.march);
  }

  /** And that day of March is Farvardin 1st again. */
  lemma NewYearInJalali(jy: int)
    requires -61 <= jy <= 3177 && 1 <= JalCal(jy).value.march <= 31
    ensures ToJalaali(jy + 621, 3, JalCal(jy).value.march) == Ok(JDate(jy, 1, 1))
  {
    var cal := JalCal(jy).value;
    var gy := jy + 621;
    assert JalCal(gy - 621) == Ok(cal);
    ToJalaaliFromYearStart(gy, 3, cal.march, cal, 0);
    TDivUnique(0, 31, 0, 0);
    assert DateOfYearDay(gy - 621, 0) == JDate(jy, 1, 1);
  }

  /** Farvardin 1st of the year 1 is 22 March 622. */
  lemma EpochDate()
    ensures ToGregorian(1, 1, 1) == Ok(GDate(622, 3, 22))
  {
    FirstYear();
    NewYearInGregorian(1);
  }

  /** d2j's reading of j2d's day number, within the Gregorian year in which the Jalali year began, is the date. */
  lemma DayInYearRoundTrip(jy: int, jm: int, jd: int, jdn: int)
    requires IsValidJalaaliDate(jy, jm, jd) && J2D(jy, jm, jd) == Ok(jdn)
    ensures D2JInYear(jdn, jy + 621) == Ok(JDate(jy, jm, jd))
  {
    var cal := JalCal(jy).value;
    var gy := jy + 621;
    var k := JalaaliOffset(jm, jd);
    J2DFromRecord(jy, jm, jd, cal, gy, k, G2D(gy, 3, cal.march) + k);
    OffsetThenDate(jy, jm, jd);
    assert JalCal(gy - 621) == Ok(cal);
    D2JInYearFromRecord(jdn, gy, cal);
    DateFromRecordOnOrAfterStart(jdn, gy, cal, k);
    assert DateOfYearDay(gy - 621, k) == DateOfYearDay(jy, k);
  }

  /**
   * A valid Jalali date comes back from toGregorian's day number whenever
   * that day still lies in the Gregorian year in which the Jalali year began
   * (up to 31 December).
   */
  lemma JalaliRoundTripWithinYear(jy: int, jm: int, jd: int)
    requires IsValidJalaaliDate(jy, jm, jd)
    requires D2G(J2D(jy, jm, jd).value).gy == jy + 621
    ensures D2J(J2D(jy, jm, jd).value) == Ok(JDate(jy, jm, jd))
  {
    var jdn := J2D(jy, jm, jd).value;
    D2JIsInYear(jdn, jy + 621);
    DayInYearRoundTrip(jy, jm, jd, jdn);
  }

  /** Day k of a Jalali year jy that jalCal accepts is a valid date whose j2d day number is the year's start plus k. */
  lemma DayOfYearNumber(jy: int, gy: int, cal: JalCalRecord, k: int, jdn: int)
    requires JalCal(jy) == Ok(cal) && gy == jy + 621 && 0 <= k < JalaaliYearLength(jy)
    requires jdn == G2D(gy, 3, cal.march) + k
    ensures var j := DateOfYearDay(jy, k);
      j.jy == jy && IsValidJalaaliDate(jy, j.jm, j.jd) && J2D(jy, j.jm, j.jd) == Ok(jdn)
  {
    DateThenOffset(jy, k);
    var j := DateOfYearDay(jy, k);
    J2DFromRecord(jy, j.jm, j.jd, cal, gy, k, jdn);
  }

  /**
   * A Gregorian date from Farvardin 1st to the end of its Jalali year comes
   * back from toJalaali's answer through toGregorian.
   */
  lemma GregorianRoundTripFromFarvardin(gy: int, gm: int, gd: int)
    requires 1 <= gm <= 12 && 1 <= gd && gd <= GregorianMonthLength(gy, gm).value
    requires 560 <= gy <= 3798
    requires var k := G2D(gy, gm, gd) - G2D(gy, 3, JalCal(gy - 621).value.march);
      0 <= k < JalaaliYearLength(gy - 621)
    ensures ToJalaali(gy, gm, gd).Ok?
    ensures var j := ToJalaali(gy, gm, gd).value;
      j.jy == gy - 621 && IsValidJalaaliDate(j.jy, j.jm, j.jd) && ToGregorian(j.jy, j.jm, j.jd) == Ok(GDate(gy, gm, gd))
  {
    var cal := JalCal(gy - 621).value;
    var k := G2D(gy, gm, gd) - G2D(gy, 3, cal.march);
    ToJalaaliFromYearStart(gy, gm, gd, cal, k);
    var j := DateOfYearDay(gy - 621, k);
    DayOfYearNumber(gy - 621, gy, cal, k, G2D(gy, gm, gd));
    ToGregorianOfDay(j.jy, j.jm, j.jd, G2D(gy, gm, gd));
    D2GAfterG2D(gy, gm, gd);
  }

  // ---------------------------------------------------------------------
  // jalaliToGregorian and gregorianToJalali
  // ---------------------------------------------------------------------

  /**
   * The JavaScript value passed to the wrappers. `Falsy` stands for
   * undefined, null, false, 0, NaN and the empty string. An object's fields
   * and the pieces of a non-empty string, split at '/' and read with
   * parseInt, are None when they are not a number.
   */
  datatype DateArg =
    | Falsy
    | Obj(year: Option<int>, month: Option<int>, day: Option<int>)
    | Text(parts: seq<Option<int>>)
    | Other

  /** What the wrappers return: an object with Year, Month and Day, the string "y/m/d", or undefined. */
  datatype DateOut =
    | DateObject(year: int, month: int, day: int)
    | DateText(year: int, month: int, day: int)
    | NothingReturned

  const PassDateMessage := "ARMDatePicker: Please pass date parameter!"
  const NotValidMessage := "ARMDatePicker: Date parameter not valid!"
  const NotValidFormatMessage := "ARMDatePicker: Date parameter not valid! (by format :\"yyyy/mm/dd\")"
  const JalaliKindMessage :=
    "ARMDatePicker: Date parameter is not in correct format(please pass string or object of ARMDate{Year:val,Month:val,Day:val})"
  const GregorianKindMessage :=
    "ARMDatePicker: Date parameter is not valid(please pass string or object of ARMDate{Year:val,Month:val,Day:val})"

  /** The i-th piece of a split string, or None (parseInt of undefined) past its end. */
  function Part(parts: seq<Option<int>>, i: nat): (r: Option<int>)
    ensures i >= |parts| ==> r == None
  {
    if i < |parts| then parts[i] else None
  }

  /** isValidJalaaliDate on three values that may not be numbers (every comparison with NaN is false). */
  predicate ValidJalaaliFields(y: Option<int>, m: Option<int>, d: Option<int>) {
    y.Some? && m.Some? && d.Some? && IsValidJalaaliDate(y.value, m.value, d.value)
  }

  /** isValidGregorianDate on three values that may not be numbers. */
  predicate ValidGregorianFields(y: Option<int>, m: Option<int>, d: Option<int>) {
    y.Some? && m.Some? && d.Some? && IsValidGregorianDate(y.value, m.value, d.value)
  }

  /** The argument names a valid Jalali date: as an object, or as a string whose first three pieces do. */
  predicate NamesValidJalaali(arg: DateArg) {
    match arg
    case Obj(y, m, d) => ValidJalaaliFields(y, m, d)
    case Text(parts) => ValidJalaaliFields(Part(parts, 0), Part(parts, 1), Part(parts, 2))
    case _ => false
  }

  /** The argument names a valid Gregorian date. */
  predicate NamesValidGregorian(arg: DateArg) {
    match arg
    case Obj(y, m, d) => ValidGregorianFields(y, m, d)
    case Text(parts) => ValidGregorianFields(Part(parts, 0), Part(parts, 1), Part(parts, 2))
    case _ => false
  }

  /**
   * jalaliToGregorian. A validated date never reaches jalCal's
   * out-of-range error, so every error is one of the wrapper's own
   * messages; a string with more than three pieces passes validation and
   * returns nothing.
   */
  function JalaliToGregorian(arg: DateArg): (r: Result<DateOut>)
    ensures r.Err? ==> r.error.Thrown?
    ensures r.Ok? <==> NamesValidJalaali(arg)
    ensures r == Ok(NothingReturned) <==> arg.Text? && |arg.parts| > 3 && NamesValidJalaali(arg)
    ensures r.Ok? && r.value.DateObject? ==>
              arg.Obj? &&
              ToGregorian(arg.year.value, arg.month.value, arg.day.value) == Ok(GDate(r.value.year, r.value.month, r.value.day))
    ensures r.Ok? && r.value.DateText? ==>
              arg.Text? && |arg.parts| == 3 &&
              ToGregorian(arg.parts[0].value, arg.parts[1].value, arg.parts[2].value) == Ok(GDate(r.value.year, r.value.month, r.value.day))
  {
    match arg
    case Falsy => Err(Thrown(PassDateMessage))
    case Obj(y, m, d) =>
      if !ValidJalaaliFields(y, m, d) then Err(Thrown(NotValidMessage))
      else
        (match ToGregorian(y.value, m.value, d.value)
         case Err(e) => Err(e)
         case Ok(g) => Ok(DateObject(g.gy, g.gm, g.gd)))
    case Text(parts) =>
      var y, m, d := Part(parts, 0), Part(parts, 1), Part(parts, 2);
      if !ValidJalaaliFields(y, m, d) then Err(Thrown(NotValidFormatMessage))
      else if |parts| == 3 then
        (match ToGregorian(y.value, m.value, d.value)
         case Err(e) => Err(e)
         case Ok(g) => Ok(DateText(g.gy, g.gm, g.gd)))
      else Ok(NothingReturned)
    case Other => Err(Thrown(JalaliKindMessage))
  }

  /**
   * gregorianToJalali. The validator's years 1400 to 3016 all lie inside
   * the range toJalaali accepts, so here too every error is one of the
   * wrapper's own messages.
   */
  function GregorianToJalali(arg: DateArg): (r: Result<DateOut>)
    ensures r.Err? ==> r.error.Thrown?
    ensures r.Ok? <==> NamesValidGregorian(arg)
    ensures r == Ok(NothingReturned) <==> arg.Text? && |arg.parts| > 3 && NamesValidGregorian(arg)
    ensures r.Ok? && r.value.DateObject? ==>
              arg.Obj? &&
              ToJalaali(arg.year.value, arg.month.value, arg.day.value) == Ok(JDate(r.value.year, r.value.month, r.value.day))
    ensures r.Ok? && r.value.DateText? ==>
              arg.Text? && |arg.parts| == 3 &&
              ToJalaali(arg.parts[0].value, arg.parts[1].value, arg.parts[2].value) == Ok(JDate(r.value.year, r.value.month, r.value.day))
  {
    match arg
    case Falsy => Err(Thrown(PassDateMessage))
    case Obj(y, m, d) =>
      if !ValidGregorianFields(y, m, d) then Err(Thrown(NotValidMessage))
      else
        ToJalaaliDefined(y.value, m.value, d.value);
        (match ToJalaali(y.value, m.value, d.value)
         case Err(e) => Err(e)
         case Ok(j) => Ok(DateObject(j.jy, j.jm, j.jd)))
    case Text(parts) =>
      var y, m, d := Part(parts, 0), Part(parts, 1), Part(parts, 2);
      if !ValidGregorianFields(y, m, d) then Err(Thrown(NotValidFormatMessage))
      else if |parts| == 3 then
        ToJalaaliDefined(y.value, m.value, d.value);
        (match ToJalaali(y.value, m.value, d.value)
         case Err(e) => Err(e)
         case Ok(j) => Ok(DateText(j.jy, j.jm, j.jd)))
      else Ok(NothingReturned)
    case Other => Err(Thrown(GregorianKindMessage))
  }

  /** The messages: which argument gets which. */
  lemma WrapperMessages(arg: DateArg)
    ensures arg.Falsy? ==> JalaliToGregorian(arg) == GregorianToJalali(arg) == Err(Thrown(PassDateMessage))
    ensures arg.Obj? && !NamesValidJalaali(arg) ==> JalaliToGregorian(arg) == Err(Thrown(NotValidMessage))
    ensures arg.Obj? && !NamesValidGregorian(arg) ==> GregorianToJalali(arg) == Err(Thrown(NotValidMessage))
    ensures arg.Text? && !NamesValidJalaali(arg) ==> JalaliToGregorian(arg) == Err(Thrown(NotValidFormatMessage))
    ensures arg.Text? && !NamesValidGregorian(arg) ==> GregorianToJalali(arg) == Err(Thrown(NotValidFormatMessage))
    ensures arg.Other? ==> JalaliToGregorian(arg) == Err(Thrown(JalaliKindMessage))
    ensures arg.Other? ==> GregorianToJalali(arg) == Err(Thrown(GregorianKindMessage))
  {
  }

  /** A string of fewer than three pieces always fails validation: the missing pieces read as NaN. */
  lemma ShortTextRejected(parts: seq<Option<int>>)
    requires |parts| < 3
    ensures JalaliToGregorian(Text(parts)) == Err(Thrown(NotValidFormatMessage))
    ensures GregorianToJalali(Text(parts)) == Err(Thrown(NotValidFormatMessage))
  {
  }
}
