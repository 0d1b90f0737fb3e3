# ARMCalendar in Dafny

A model of ARMCalendar, the calendar engine of the `ng-arm-datepicker`
AngularJS date picker (`js/ng-arm-datepicker.js`, lines 11-315). The
engine converts dates between the Jalali (Persian) and Gregorian calendars
through Julian Day Numbers. It also answers the calendar queries the
widget needs: whether a Jalali year is leap, how long a month is, whether
a date is valid, and where a weekday falls in a week that starts on
Saturday.

The model follows the source function by function:

| module | file | what it holds |
|---|---|---|
| `TruncArith` | `trunc_arith.dfy` | `div` and `mod`: JavaScript's `~~(a / b)`, a quotient truncated toward zero, and its remainder |
| `Outcomes` | `outcomes.dfy` | `Option` (a value that may be `undefined` or `NaN`), `Result`, and the two kinds of error: jalCal's `Invalid Jalaali year` and a wrapper's thrown message |
| `DayCount` | `day_count.dfy` | `g2d`, `d2g`, `jalCal`, `j2d` and `d2j`, plus the break table. jalCal's and d2j's step-by-step code are methods proved equal to the functions that specify them |
| `JalCalFacts` | `jalcal_facts.dfy` | what jalCal's scan finds on an increasing break table. `leap` stays within 0..4, and Farvardin 1st of the year 1 is 22 March 622 |
| `Queries` | `queries.dfy` | `isLeapJalaaliYear`, `jalaaliMonthLength`, `gregorianMonthLength`, the two validators and `weekDayList` |
| `DayOfYear` | `day_of_year.dfy` | j2d's month offset and d2j's month/day arithmetic undo each other |
| `GregorianDays` | `gregorian_days.dfy` | g2d in closed form; d2g(g2d(date)) == date for every valid Gregorian date |
| `Conversions` | `conversions.dfy` | `toJalaali`, `toGregorian`, their round trips, and the argument-checking wrappers `jalaliToGregorian` and `gregorianToJalali` |
| `WorkedValues` | `worked_values.dfy` | concrete values: the leap years around 1400, the epoch, the 358 / 979 alignment and the validators on edge dates |

Modelling choices:

- **Division.** Every `div`/`mod` of the source is `TDiv`/`TMod`, never
  Dafny's Euclidean `/` and `%`. The same goes for the `%` in
  `gregorianMonthLength`, so negative years are modelled too.
- **Errors.** `throw` becomes an `Err`. jalCal's error carries the year.
  The wrappers' errors carry their exact message strings.
- **The wrappers' argument.** It is a `DateArg`: a falsy value, an object
  with three possibly-`NaN` fields, a string already split at `/` and read
  with `parseInt` (each piece `None` when it is `NaN`), or any other
  value.
- **The wrappers' result.** It is a `DateOut`: an object, the string
  `y/m/d` as its three numbers, or `undefined`.

Facts about the code that the model keeps:

- The break table has 20 entries, from -61 to 3178.
- An object with missing or non-numeric fields gets "Date parameter not
  valid!".
- A valid string of more than three `/`-separated pieces returns
  `undefined`.
- Every string that fails validation gets the "(by format ...)" message,
  whether its fields are malformed or only out of range.

## Model

| member | source | states |
|---|---|---|
| TruncArith.TDiv | js/ng-arm-datepicker.js:14-16 | `div`, the quotient truncated toward zero; its properties are stated by TDivTruncates, TDivOdd, TDivAgreesWithEuclid and TDivUnique |
| TruncArith.TMod | js/ng-arm-datepicker.js:18-20 | `mod`, the remainder that goes with div; its properties are stated by TModSign and RemainderZeroEitherWay |
| TruncArith.TDivTruncates | js/ng-arm-datepicker.js:14-16 | div's quotient never overshoots: q*b lies between 0 and a, within one divisor of a, on both signs |
| TruncArith.TModSign | js/ng-arm-datepicker.js:18-20 | a == div(a,b)*b + mod(a,b); the remainder is smaller than b in magnitude and takes the dividend's sign |
| TruncArith.TDivAgreesWithEuclid | js/ng-arm-datepicker.js:14-20 | on a non-negative dividend, div/mod coincide with floor division and its remainder |
| TruncArith.TDivOdd | js/ng-arm-datepicker.js:14-20 | negating the dividend negates both quotient and remainder (truncation is symmetric about zero) |
| TruncArith.TDivNegativeExample | js/ng-arm-datepicker.js:14-20 | div(-7,2) = -3 and mod(-7,2) = -1, where floor division gives -4 and 1 |
| TruncArith.TDivUnique | js/ng-arm-datepicker.js:14-20 | any q >= 0 and 0 <= r < b with a == q*b + r are div(a,b) and mod(a,b) |
| TruncArith.TimesIsProduct | js/ng-arm-datepicker.js:142 | the recursive product used for j2d's div(jm,7)*(jm-7) is multiplication |
| DayCount.IntervalLeapDays | js/ng-arm-datepicker.js:48 | the leap days one whole interval adds to leapJ (8 per 33 years plus one per 4 of the rest); ScanReachesBracket states that the loop adds exactly these for every interval before the year's, LeapDaysBeforeFourthInterval gives the first three |
| DayCount.GregorianLeapDays | js/ng-arm-datepicker.js:60 | leapG, the Gregorian leap days up to gy; Year358Final evaluates it for 979 |
| DayCount.YearsSinceLeap | js/ng-arm-datepicker.js:65-71 | the years since the last leap year; YearsSinceLeapRange bounds it, JalCalOverLeap ties jalCal's `leap` to it |
| DayCount.YearsSinceLeapRange | js/ng-arm-datepicker.js:66-71 | n years into an interval of at least 29 years, the years-since-leap counter lies in 0..4, the -1 case included |
| DayCount.JalCalFinal | js/ng-arm-datepicker.js:51-77 | the record built after the loop carries gy = jy + 621; its `leap` is YearsSinceLeap of the year's position, which YearsSinceLeapRange bounds to 0..4 |
| DayCount.G2D | js/ng-arm-datepicker.js:145-151 | g2d; GregorianDays.G2DClosedForm states its closed form, D2GAfterG2D that d2g inverts it, G2DInjective that it is one-to-one, EpochDayNumber that 22 March 622 is 1948321 |
| DayCount.D2G | js/ng-arm-datepicker.js:121-138 | d2g; GregorianDays.D2GAfterG2D states it is a left inverse of g2d on valid dates, D2GMonthDayRange that its month and day are in range, EpochDayDate its value on 1948321 |
| DayCount.JalCalScan | js/ng-arm-datepicker.js:43-50 | the loop stops at an interval [jp, jp + jump) that contains the year |
| DayCount.JalCalOver | js/ng-arm-datepicker.js:39-77 | over any table: succeeds exactly when the year is within [first break, last break), otherwise throws the year's "Invalid Jalaali year" error; gy = jy + 621 |
| DayCount.JalCal | js/ng-arm-datepicker.js:22-78 | succeeds exactly for -61 <= jy <= 3177; otherwise the "Invalid Jalaali year" error for jy; gy = jy + 621 |
| DayCount.ScanJalCal | js/ng-arm-datepicker.js:22-78 | the range check, the for loop over the table and the arithmetic after it compute exactly jalCal's record (or error) for any table of two or more breaks |
| DayCount.ComputeJalCal | js/ng-arm-datepicker.js:22-78 | the loop run over the engine's own table is jalCal |
| DayCount.JalaaliOffset | js/ng-arm-datepicker.js:142 | j2d's month/day offset; OffsetInFirstMonths and OffsetInLaterMonths give its two shapes, OffsetIsMonthLengths that it sums the earlier month lengths, OffsetThenDate that d2j's arithmetic inverts it |
| DayCount.J2D | js/ng-arm-datepicker.js:140-143 | j2d has a value exactly when jalCal accepts the year, and otherwise propagates jalCal's error |
| DayCount.D2J | js/ng-arm-datepicker.js:80-119 | d2j succeeds exactly when jalCal accepts the Gregorian year of the day less 621, otherwise throws jalCal's error for that year |
| DayCount.DateOfYearDay | js/ng-arm-datepicker.js:91-113 | day k of a Jalali year as d2j reads it; DayOfYear.DateThenOffset states it is a valid date whose offset is k, OffsetThenDate that it inverts the offset |
| DayCount.DateFromRecord | js/ng-arm-datepicker.js:89-118 | d2j's day arithmetic once jalCal has answered; DateOfDay is the source's step-by-step code proved equal to it, PreviousYearDate reads its k < 0 branch under an assumed previous-year length of 365 + extra days, not tied to jalCal's `leap` |
| DayCount.D2JInYear | js/ng-arm-datepicker.js:80-119 | d2j within a given Gregorian year; Conversions.DayInYearRoundTrip states that it reads j2d's day number back as the date |
| DayCount.DateOfDay | js/ng-arm-datepicker.js:84-118 | the step-by-step updates of jy and k (first six months, later months, previous year with the leap adjustment) yield the record-based date |
| DayCount.ComputeD2J | js/ng-arm-datepicker.js:80-119 | d2j's code (d2g, jalCal's loop, the day arithmetic) returns exactly d2j's result, including its error |
| JalCalFacts.IncreasingMonotone | js/ng-arm-datepicker.js:24-26 | on an increasing table, an earlier break is below every later one |
| JalCalFacts.ScanReachesBracket | js/ng-arm-datepicker.js:43-50 | the loop ends at the interval [breaks[t-1], breaks[t]) holding the year, having added the leap days of every whole interval before it |
| JalCalFacts.JalCalBracket | js/ng-arm-datepicker.js:39-77 | jalCal of a year in interval t is the final arithmetic with jp = breaks[t-1], that interval's length and the earlier intervals' leap days |
| JalCalFacts.JalCalOverLeap | js/ng-arm-datepicker.js:65-71 | inside one interval, `leap` depends only on how far into the interval the year lies |
| JalCalFacts.BreaksShape | js/ng-arm-datepicker.js:24-26 | the break table is increasing and no interval is shorter than 29 years |
| JalCalFacts.ScanJumpAtLeast | js/ng-arm-datepicker.js:43-50 | the interval the loop stops in is at least as long as the table's shortest |
| JalCalFacts.JalCalOverLeapRange | js/ng-arm-datepicker.js:65-71 | over a table of intervals of 29+ years, `leap` is one of 0..4 |
| JalCalFacts.JalCalLeapRange | js/ng-arm-datepicker.js:22-78 | jalCal's `leap` is always one of 0..4 |
| JalCalFacts.FirstYear | js/ng-arm-datepicker.js:22-78 | jalCal(1) = {leap: 1, gy: 622, march: 22} |
| Queries.IsLeapJalaaliYear | js/ng-arm-datepicker.js:221-223 | defined exactly on -61..3177, jalCal's error elsewhere |
| Queries.JalaaliMonthLength | js/ng-arm-datepicker.js:225-230 | 31 for month <= 6, 30 for 7..11, and for month >= 12 30 exactly when the year is leap (else 29); the error only for month >= 12 in a year jalCal rejects |
| Queries.JalaaliYearLengthIsLeap | js/ng-arm-datepicker.js:225-230 | the twelve month lengths add up to 366 in a leap year and 365 otherwise |
| Queries.JalaaliOffsetFollowsMonthLengths | js/ng-arm-datepicker.js:142 | j2d's offset of month m+1 is the offset of month m plus the length of month m |
| Queries.JalaaliOffsetStartsAtZero | js/ng-arm-datepicker.js:142 | Farvardin 1st has offset 0, and each further day of a month adds one |
| Queries.GregorianLeapRuleIgnoresSign | js/ng-arm-datepicker.js:233 | the leap test with JavaScript's % is the 4/100/400 rule for every year, negative ones included |
| Queries.RemainderZeroEitherWay | js/ng-arm-datepicker.js:18-20 | a truncated remainder is zero exactly when the floor remainder is |
| Queries.GregorianMonthLength | js/ng-arm-datepicker.js:232-251 | defined exactly for months 1..12 (undefined otherwise), 28..31 days, February 29 days exactly in leap years |
| Queries.GregorianYearLength | js/ng-arm-datepicker.js:232-251 | the twelve month lengths add up to 366 in a leap year and 365 otherwise |
| Queries.IsGregorianLeapYear | js/ng-arm-datepicker.js:233 | the leap test with JavaScript's `%`; GregorianLeapRuleIgnoresSign states it is the 4/100/400 rule for every year |
| Queries.IsValidJalaaliDate | js/ng-arm-datepicker.js:253-257 | isValidJalaaliDate; ValidJalaaliDateConverts states that a valid date converts and lies within its year, ValidatorExamples its edge cases |
| Queries.IsValidGregorianDate | js/ng-arm-datepicker.js:259-263 | isValidGregorianDate; LeapDayValidity states its leap-day behaviour, ValidatorExamples its edge cases |
| Queries.ValidJalaaliDateConverts | js/ng-arm-datepicker.js:253-257 | a valid Jalali date is in jalCal's range, j2d converts it, and its offset lies within the year |
| Queries.JalaaliOffsetBeforeMonthEnd | js/ng-arm-datepicker.js:142 | the offset of a valid date is the lengths of the earlier months plus jd - 1, so before the year's end |
| Queries.OffsetIsMonthLengths | js/ng-arm-datepicker.js:142 | the offset of the first day of month m is the sum of the lengths of months 1..m-1 |
| Queries.MonthLengthsGrow | js/ng-arm-datepicker.js:225-230 | every month adds at least 29 days |
| Queries.LeapDayValidity | js/ng-arm-datepicker.js:259-263 | in the accepted years, 29 February is valid exactly in leap years; 30 February and 31 April never are |
| Queries.WeekDayOf | js/ng-arm-datepicker.js:286-290 | weekDayList[d] is (d + 1) mod 7 for d in 0..6 (Saturday becomes 0), undefined otherwise |
| Queries.WeekDayListIsPermutation | js/ng-arm-datepicker.js:286 | weekDayList holds each of 0..6 once |
| Queries.WeekDayOfInjective | js/ng-arm-datepicker.js:286-290 | no two weekdays share a number |
| DayOfYear.OffsetInFirstMonths | js/ng-arm-datepicker.js:142 | in months 1..6 the offset is (jm - 1) * 31 + jd - 1 |
| DayOfYear.OffsetInLaterMonths | js/ng-arm-datepicker.js:142 | in months 7..12 the offset is 186 + (jm - 7) * 30 + jd - 1 |
| DayOfYear.OffsetThenDate | js/ng-arm-datepicker.js:92-113 | d2j's month/day arithmetic applied to j2d's offset gives back every valid date |
| DayOfYear.FirstMonthsDateThenOffset | js/ng-arm-datepicker.js:92-100 | days 0..185 are valid dates of months 1..6 whose offset is the day |
| DayOfYear.LaterMonthsDateThenOffset | js/ng-arm-datepicker.js:102-113 | the remaining days of the year are valid dates of months 7..12 whose offset is 186 + k |
| DayOfYear.DateThenOffset | js/ng-arm-datepicker.js:90-113 | every day of a Jalali year is a valid date of that year whose j2d offset is the day |
| DayOfYear.PreviousYearDate | js/ng-arm-datepicker.js:105-113 | under an assumed previous-year length of 365 + extra days (extra is not tied to jalCal's `leap`), d2j's previous-year reading of a negative k is a valid date of that year at offset 365 + extra + k |
| GregorianDays.G2DClosedForm | js/ng-arm-datepicker.js:145-151 | g2d is 365*Y + Y/4 - (Y/100*3)/4 + D - 34839655 for the March year Y and the day D within it |
| GregorianDays.EraFromParts | js/ng-arm-datepicker.js:128 | d2g's first quotient recovers the century of the March year, from the year's parts |
| GregorianDays.EraQuotient | js/ng-arm-datepicker.js:128 | d2g's first quotient of a day in March year Y is Y/100 + 300 |
| GregorianDays.CycleQuotient | js/ng-arm-datepicker.js:129-132 | d2g's j splits into the March year and the day within it |
| GregorianDays.MonthAndDay | js/ng-arm-datepicker.js:129-131 | d2g's 153-days-per-five-months rule gives back the month and day of every valid date |
| GregorianDays.D2GOfMarchCount | js/ng-arm-datepicker.js:121-138 | d2g of the closed-form day takes it apart into the March year and the day |
| GregorianDays.D2GOfMarchDate | js/ng-arm-datepicker.js:121-138 | d2g of the closed-form day is the date its March year and day encode |
| GregorianDays.MarchDayRange | js/ng-arm-datepicker.js:145-151 | a valid date's day in its March year is 0..365, and 365 only for 29 February of a leap year |
| GregorianDays.LeapMarchYear | js/ng-arm-datepicker.js:233 | a leap year's 29 February ends a March year that is 3 mod 4 and, at a century, in a fourth century |
| GregorianDays.ValidMarchCount | js/ng-arm-datepicker.js:145-151 | a valid date's March year and day meet every condition d2g needs to recover the date |
| GregorianDays.D2GOfClosedForm | js/ng-arm-datepicker.js:121-151 | d2g of the closed form of a valid date is that date |
| GregorianDays.D2GAfterG2D | js/ng-arm-datepicker.js:121-151 | d2g(g2d(gy, gm, gd)) == (gy, gm, gd) for every valid Gregorian date from the year -100098 on |
| GregorianDays.MonthDayOfCount | js/ng-arm-datepicker.js:129-131 | from a non-negative i, d2g's month is in 1..12 and its day in 1..31 |
| GregorianDays.D2GMonthDayRange | js/ng-arm-datepicker.js:121-138 | from day -34839655 (1 March of -100100) on, d2g yields a month in 1..12 and a day in 1..31 |
| GregorianDays.G2DInjective | js/ng-arm-datepicker.js:145-151 | distinct valid Gregorian dates have distinct day numbers |
| Conversions.ToJalaali | js/ng-arm-datepicker.js:156-158 | toJalaali's error is jalCal's for the day's Gregorian year less 621; its answer's year is that year less 621 or 622 |
| Conversions.ToGregorian | js/ng-arm-datepicker.js:163-165 | toGregorian succeeds exactly for Jalali years -61..3177, otherwise jalCal's error |
| Conversions.ToJalaaliDefined | js/ng-arm-datepicker.js:156-158 | for a well-formed Gregorian date, toJalaali succeeds exactly for the years 560..3798, errs with the year gy - 621 otherwise, and answers gy - 622 or gy - 621 |
| Conversions.ToJalaaliFromYearStart | js/ng-arm-datepicker.js:80-104 | toJalaali of a date on or after Farvardin 1st of the Jalali year starting in its year is day k of that year |
| Conversions.NewYearInGregorian | js/ng-arm-datepicker.js:62-63 | toGregorian(jy, 1, 1) is the day of March jalCal computes, in the year jy + 621 |
| Conversions.NewYearInJalali | js/ng-arm-datepicker.js:62-63 | toJalaali of that day of March is Farvardin 1st of jy |
| Conversions.EpochDate | js/ng-arm-datepicker.js:163-165 | toGregorian(1, 1, 1) is 22 March 622 |
| Conversions.DayInYearRoundTrip | js/ng-arm-datepicker.js:80-143 | d2j, within the Gregorian year in which the Jalali year began, reads j2d's day number back as the date |
| Conversions.JalaliRoundTripWithinYear | js/ng-arm-datepicker.js:156-165 | d2j(j2d(date)) == date for every valid Jalali date whose day still falls in the Gregorian year the Jalali year began in |
| Conversions.DayOfYearNumber | js/ng-arm-datepicker.js:140-143 | day k of an accepted Jalali year is a valid date whose j2d day number is Farvardin 1st's plus k |
| Conversions.GregorianRoundTripFromFarvardin | js/ng-arm-datepicker.js:156-165 | a Gregorian date from Farvardin 1st to the end of its Jalali year converts to a valid Jalali date of the year gy - 621, which toGregorian turns back into the same date |
| Conversions.JalaliToGregorian | js/ng-arm-datepicker.js:168-193 | succeeds exactly when the argument names a valid Jalali date; every error is a thrown message; undefined exactly for a valid string of more than three pieces; an object or a three-piece string returns toGregorian of its fields |
| Conversions.GregorianToJalali | js/ng-arm-datepicker.js:194-218 | succeeds exactly when the argument names a valid Gregorian date; jalCal's error cannot escape; undefined exactly for a valid string of more than three pieces; an object or a three-piece string returns toJalaali of its fields |
| Conversions.WrapperMessages | js/ng-arm-datepicker.js:168-218 | which argument gets which message: falsy, invalid object, invalid string, other type |
| Conversions.ShortTextRejected | js/ng-arm-datepicker.js:183-185 | a string of fewer than three pieces always fails with the format message |
| WorkedValues.LeapInEleventhInterval | js/ng-arm-datepicker.js:221-230 | in the years 1210..1634, leap status and Esfand's length follow from the position in that interval |
| WorkedValues.Year1403IsLeap | js/ng-arm-datepicker.js:221-230 | 1403 is leap and its Esfand has 30 days |
| WorkedValues.Year1402IsCommon | js/ng-arm-datepicker.js:221-230 | 1402 is common and its Esfand has 29 days |
| WorkedValues.Year1400IsCommon | js/ng-arm-datepicker.js:221-230 | 1400 is common and its Esfand has 29 days |
| WorkedValues.ValidatorExamples | js/ng-arm-datepicker.js:253-263 | 1403/12/30 valid, 1402/12/30, 1400/13/1 and 3178/1/1 not; 2024/2/29 valid, 2023/2/29, 1399/1/1 and 2000/2/30 not |
| WorkedValues.EpochDayNumber | js/ng-arm-datepicker.js:145-151 | g2d(622, 3, 22) = 1948321 |
| WorkedValues.EpochDayDate | js/ng-arm-datepicker.js:121-138 | d2g(1948321) = 22 March 622 |
| WorkedValues.LeapDaysBeforeFourthInterval | js/ng-arm-datepicker.js:43-50 | the first three intervals of the table add 63 leap days |
| WorkedValues.Year358Final | js/ng-arm-datepicker.js:51-77 | jalCal's final arithmetic for 358 gives leap 3, gy 979, march 21 |
| WorkedValues.Year358Record | js/ng-arm-datepicker.js:22-78 | jalCal(358) = {leap: 3, gy: 979, march: 21} |
| WorkedValues.Year358Alignment | js/ng-arm-datepicker.js:156-165 | toJalaali(979, 3, 21) = 358/1/1 and toGregorian(358, 1, 1) = 21 March 979 |

## Proof steps

These lemmas only unfold one member for another and carry no row of their
own: `DayCount.J2DFromRecord`, `DayCount.D2JIsInYear`,
`DayCount.D2JInYearFromRecord`, `DayCount.DateFromRecordOnOrAfterStart`,
`DayCount.D2JOnOrAfterStart`, `Conversions.ToGregorianOfDay`,
`Conversions.ToGregorianFromYearStart`, `GregorianDays.D2GFromCycle`. The
function `Conversions.Part` reads the i-th piece of a split string, or NaN
past its end.

## Left out

- The `armDatePicker` directive and all of its UI state: `nowInGregorian`, `nowInJalaali` (they read the clock), the month and weekday name tables, and the object literal that exports the API.
- getDayOfWeek: only its final `weekDayList` lookup is modelled (`WeekDayOf`). Building a JavaScript `Date` from a `m/d/y` string and calling `getDay()` is host behaviour.
- div, mod: `~~` also truncates to a signed 32-bit integer; that wrap-around is not modelled. For Gregorian years up to 3798 (the last that toJalaali converts), the largest intermediate, `(gy + 100100) * 1461`, and d2g's `4 * jdn + 183187720` stay below 2e8, far below 2^31.
- ToJalaaliDefined: its "errs with the year gy - 621" holds for unbounded integers. toJalaali validates nothing, and from gy = 5779390 on, g2d's first quotient `(gy + 100100) * 1461 / 4` reaches 2^31. There `~~` wraps it negative, so jalCal throws for a different year. The lemma does not model that wrap-around.
- Fractional numbers, numeric strings in object fields (JavaScript would concatenate `jy + 621` as strings) and other non-integer field values: every field is an integer or NaN (`None`).
- `split('/')` and `parseInt`: a string argument arrives already split and parsed into `Option<int>` pieces. Leading-digit parsing such as `parseInt("12abc") == 12` is not modelled.
- The wrappers' string result is the triple `DateText(y, m, d)` rather than the text `y + '/' + m + '/' + d`.
- D2J: its contract and lemmas state the date only for days on or after Farvardin 1st of the Jalali year that starts in the day's Gregorian year. d2j's previous-year branch (January to mid-March) is modelled but not related to j2d.
- JalaliRoundTripWithinYear: the round trip is proved only for dates up to 31 December of the Gregorian year in which the Jalali year began. The general case needs two facts across all intervals of the table. First, jalCal's `leap == 1` for a year exactly when the year before is leap. Second, consecutive Farvardin 1sts lie 365 or 366 days apart by that year's length: `G2D(gy, 3, march(jy)) - G2D(gy - 1, 3, march(jy - 1))`. The second fact is also what d2j's previous-year branch relies on.
- GregorianRoundTripFromFarvardin: the Gregorian round trip is likewise proved from Farvardin 1st to the end of the Jalali year only, not for the January-to-March days read through the previous year.
- NewYearInGregorian, NewYearInJalali: both take 1 <= march <= 31 as a precondition. The bound is not derived for all years.
- ToJalaali: throws for the dates of 3799 that still belong to the Jalali year 3177, because d2j consults jalCal(3178) first (`ToJalaaliDefined` states the exact range). For the same reason, d2j(j2d(x)) fails for the Jalali dates of 3177 that fall in January to March of 3799. This follows from where the break table ends and is not modelled further.
