/**
 * What jalCal's scan means. The loop stops at the first break above the
 * year; on an increasing table that is the break that closes the interval
 * holding the year, and the leap days counted so far are those of all the
 * earlier intervals. On the engine's table every interval is at least 29
 * years long, which keeps the "years since the last leap year" in 0..4.
 */
module JalCalFacts {
  import opened TruncArith
  import opened Outcomes
  import opened DayCount

  /** Each break is larger than the one before it. */
  predicate Increasing(breaks: seq<int>) {
    forall t :: 1 <= t < |breaks| ==> breaks[t - 1] < breaks[t]
  }

  /** Every interval of the table is at least `least` years long. */
  predicate JumpsAtLeast(breaks: seq<int>, from: int, least: int) {
    forall t :: from <= t < |breaks| && t >= 1 ==> breaks[t] - breaks[t - 1] >= least
  }

  /** The leap days that the whole intervals i, i+1, ..., t-1 of the table add up to. */
  function LeapDaysBetween(breaks: seq<int>, i: nat, t: nat): int
    requires 1 <= i <= t < |breaks|
    decreases t - i
  {
    if i == t then 0
    else IntervalLeapDays(Jump(breaks, i)) + LeapDaysBetween(breaks, i + 1, t)
  }

  /** On an increasing table, an earlier break is smaller than a later one. */
  lemma {:induction false} IncreasingMonotone(breaks: seq<int>, s: int, t: int)
    requires Increasing(breaks) && 0 <= s < t < |breaks|
    ensures breaks[s] < breaks[t]
    decreases t - s
  {
    if s + 1 < t {
      IncreasingMonotone(breaks, s + 1, t);
    }
  }

  /**
   * The scan, at break i-1 with the count leapJ, ends in the interval t that
   * holds jy, having added the leap days of the intervals i..t-1.
   */
  lemma {:induction false} ScanReachesBracket(breaks: seq<int>, jy: int, i: nat, jp: int, leapJ: int, t: nat)
    requires Increasing(breaks) && 1 <= i <= t < |breaks| && jp == breaks[i - 1]
    requires breaks[t - 1] <= jy < breaks[t] && jy < breaks[|breaks| - 1]
    ensures jp <= jy
    ensures JalCalScan(breaks, jy, i, jp, leapJ)
            == ScanStop(breaks[t - 1], Jump(breaks, t), leapJ + LeapDaysBetween(breaks, i, t))
    decreases t - i
  {
    if i < t - 1 {
      IncreasingMonotone(breaks, i, t - 1);
    }
    if i < t {
      IncreasingMonotone(breaks, i - 1, i);
      var jm := breaks[i];
      var leapJ' := leapJ + IntervalLeapDays(jm - jp);
      assert jm <= jy;
      ScanReachesBracket(breaks, jy, i + 1, jm, leapJ', t);
      assert leapJ' + LeapDaysBetween(breaks, i + 1, t) == leapJ + LeapDaysBetween(breaks, i, t);
    }
  }

  /**
   * jalCal's answer for a year in the interval [breaks[t-1], breaks[t]):
   * the arithmetic of that interval, with the leap days of every earlier
   * interval already counted.
   */
  lemma JalCalBracket(breaks: seq<int>, jy: int, t: nat)
    requires Increasing(breaks) && 1 <= t < |breaks|
    requires breaks[t - 1] <= jy < breaks[t]
    ensures JalCalOver(breaks, jy)
            == Ok(JalCalFinal(jy, breaks[t - 1], Jump(breaks, t), -14 + LeapDaysBetween(breaks, 1, t)))
  {
    if t > 1 {
      IncreasingMonotone(breaks, 0, t - 1);
    }
    if t < |breaks| - 1 {
      IncreasingMonotone(breaks, t, |breaks| - 1);
    }
    ScanReachesBracket(breaks, jy, 1, breaks[0], -14, t);
    var s := JalCalScan(breaks, jy, 1, breaks[0], -14);
    assert s.jp == breaks[t - 1] && s.jump == Jump(breaks, t);
    assert s.leapJ == -14 + LeapDaysBetween(breaks, 1, t);
  }

  /** Inside one interval of an increasing table, `leap` depends only on how far into the interval the year lies. */
  lemma JalCalOverLeap(breaks: seq<int>, jy: int, t: nat)
    requires Increasing(breaks) && 1 <= t < |breaks|
    requires breaks[t - 1] <= jy < breaks[t]
    ensures JalCalOver(breaks, jy).Ok?
    ensures JalCalOver(breaks, jy).value.leap == YearsSinceLeap(jy - breaks[t - 1], breaks[t] - breaks[t - 1])
  {
    JalCalBracket(breaks, jy, t);
  }

  /** The engine's table is increasing and none of its intervals is shorter than 29 years. */
  lemma BreaksShape()
    ensures Increasing(Breaks)
    ensures JumpsAtLeast(Breaks, 1, 29)
  {
    forall t | 1 <= t < |Breaks|
      ensures Breaks[t - 1] < Breaks[t] && Breaks[t] - Breaks[t - 1] >= 29
    {
      if t <= 5 {
        assert t == 1 || t == 2 || t == 3 || t == 4 || t == 5;
      } else if t <= 10 {
        assert t == 6 || t == 7 || t == 8 || t == 9 || t == 10;
      } else if t <= 15 {
        assert t == 11 || t == 12 || t == 13 || t == 14 || t == 15;
      } else {
        assert t == 16 || t == 17 || t == 18 || t == 19;
      }
    }
  }

  /** The scan stops in one of the table's intervals, so at least as long as the shortest of them. */
  lemma {:induction false} ScanJumpAtLeast(breaks: seq<int>, jy: int, i: nat, jp: int, leapJ: int, least: int)
    requires 1 <= i < |breaks| && jp == breaks[i - 1] <= jy < breaks[|breaks| - 1]
    requires JumpsAtLeast(breaks, i, least)
    ensures JalCalScan(breaks, jy, i, jp, leapJ).jump >= least
    decreases |breaks| - i
  {
    var jm := breaks[i];
    if jy >= jm {
      ScanJumpAtLeast(breaks, jy, i + 1, jm, leapJ + IntervalLeapDays(jm - jp), least);
    }
  }

  /** Over a table whose intervals are all at least 29 years long, `leap` is one of 0, 1, 2, 3, 4. */
  lemma JalCalOverLeapRange(breaks: seq<int>, jy: int)
    requires |breaks| >= 2 && JumpsAtLeast(breaks, 1, 29)
    requires JalCalOver(breaks, jy).Ok?
    ensures 0 <= JalCalOver(breaks, jy).value.leap <= 4
  {
    var s := JalCalScan(breaks, jy, 1, breaks[0], -14);
    ScanJumpAtLeast(breaks, jy, 1, breaks[0], -14, 29);
    YearsSinceLeapRange(jy - s.jp, s.jump);
  }

  /** jalCal's `leap` is always one of 0, 1, 2, 3, 4. */
  lemma JalCalLeapRange(jy: int)
    requires JalCal(jy).Ok?
    ensures 0 <= JalCal(jy).value.leap <= 4
  {
    BreaksShape();
    JalCalOverLeapRange(Breaks, jy);
  }

  /** Farvardin 1st of year 1 fell on 22 March 622, and year 1 followed a leap year. */
  lemma FirstYear()
    ensures JalCal(1) == Ok(JalCalRecord(1, 622, 22))
  {
    assert Breaks[0] == -61 && Breaks[1] == 9;
    assert JalCalScan(Breaks, 1, 1, -61, -14) == ScanStop(-61, 70, -14);
  }
}
