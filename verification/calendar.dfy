/** Julian Day <-> Gregorian calendar conversion: the IAU SOFA routines
    `iauCal2jd` and `iauJd2cal` as the IERS class carries them, after the
    algorithm of the Explanatory Supplement to the Astronomical Almanac
    (1992), section 12.92. */
module Calendar {
  import opened Php

  /** Earliest year accepted (4800 BC). */
  const IYMIN: int := -4799
  /** The MJD zero point returned as the first half of every Julian Day. */
  const DJM0: real := 2400000.5
  /** Smallest and largest Julian Day `iauJd2cal` accepts. */
  const DJMIN: real := -68569.5
  const DJMAX: real := 1000000000.0

  /** Month lengths of a common year. */
  const MonthDays: seq<int> := [31, 28, 31, 30, 31, 30, 31, 31, 30, 31, 30, 31]

  /** The Gregorian leap-year rule. Dafny's `%` differs from PHP's for a
      negative year, but never in whether the remainder is zero. */
  predicate IsLeapYear(y: int) {
    y % 4 == 0 && (y % 100 != 0 || y % 400 == 0)
  }

  function MonthLength(y: int, m: int): int
    requires 1 <= m <= 12
  {
    MonthDays[m - 1] + if m == 2 && IsLeapYear(y) then 1 else 0
  }

  predicate ValidDate(y: int, m: int, d: int) {
    y >= IYMIN && 1 <= m <= 12 && 1 <= d <= MonthLength(y, m)
  }

  // ---------------------------------------------------------------------
  // iauCal2jd
  // ---------------------------------------------------------------------

  /** The outcome of `iauCal2jd`: a rejected year or month leaves the two
      out-parameters unassigned; otherwise both are written, and a day out
      of range for its month is flagged but still converted. */
  datatype Cal2jdResult =
    | BadYear
    | BadMonth
    | Converted(dayInvalid: bool, djm0: real, djm: int)
  {
    /** The status code the routine returns. */
    function Status(): int {
      match this
      case BadYear => -1
      case BadMonth => -2
      case Converted(bad, _, _) => if bad then -3 else 0
    }
  }

  /** `iauCal2jd`: calendar date to the Julian Day pair (djm0, djm), where
      djm is the Modified Julian Day of the date's midnight. */
  function Cal2jd(iy: int, im: int, id: int): (r: Cal2jdResult)
    ensures r.BadYear? <==> iy < IYMIN
    ensures r.BadMonth? <==> iy >= IYMIN && (im < 1 || im > 12)
    ensures r.Converted? ==> r.djm0 == DJM0
    ensures r.Converted? ==> (r.dayInvalid <==> id < 1 || id > MonthLength(iy, im))
    ensures r.Status() == 0 <==> ValidDate(iy, im, id)
  {
    if iy < IYMIN then BadYear
    else if im < 1 || im > 12 then BadMonth
    else
      var ly := if im == 2 && IsLeapYear(iy) then 1 else 0;
      var bad := id < 1 || id > MonthDays[im - 1] + ly;
      var my := Div(im - 14, 12);
      var iypmy := iy + my;
      var djm := Div(1461 * (iypmy + 4800), 4)
                 + Div(367 * (im - 2 - 12 * my), 12)
                 - Div(3 * Div(iypmy + 4900, 100), 4)
                 + (id - 2432076);
      Converted(bad, DJM0, djm)
  }

  /** The calendar day after a valid date. */
  function NextDate(y: int, m: int, d: int): (r: (int, int, int))
    requires ValidDate(y, m, d)
    ensures ValidDate(r.0, r.1, r.2)
  {
    if d < MonthLength(y, m) then (y, m, d + 1)
    else if m < 12 then (y, m + 1, 1)
    else (y + 1, 1, 1)
  }

  /** The year terms of `iauCal2jd` for the March-based year `a` (the
      calendar year, less one in January and February). */
  function YearTerms(a: int): int {
    Div(1461 * (a + 4800), 4) - Div(3 * Div(a + 4900, 100), 4)
  }

  /** The month term: days from 1 March to the first of month `m`, plus 306
      for January and February, which belong to the previous March-based
      year. */
  function MonthTerm(m: int): int
    requires 1 <= m <= 12
  {
    Div(367 * (m - 2 - 12 * Div(m - 14, 12)), 12)
  }

  /** `iauCal2jd`'s Modified Julian Day, split into its year, month and day
      terms. */
  lemma Cal2jdTerms(y: int, m: int, d: int)
    requires y >= IYMIN && 1 <= m <= 12
    ensures Div(m - 14, 12) == if m <= 2 then -1 else 0
    ensures Cal2jd(y, m, d).djm == YearTerms(MarchYear(y, m)) + MonthTerm(m) + d - 2432076
  {
  }

  /** The month term steps by the length of the month left behind, except
      from February to March, where the year terms take over. */
  lemma MonthTermSteps()
    ensures MonthTerm(1) == 336 && MonthTerm(2) == 367
    ensures forall m :: 3 <= m <= 11 ==> MonthTerm(m + 1) == MonthTerm(m) + MonthDays[m - 1]
    ensures MonthTerm(3) == 30 && MonthTerm(12) == 305
  {
    MonthTermValues();
    forall m | 3 <= m <= 11
      ensures MonthTerm(m + 1) == MonthTerm(m) + MonthDays[m - 1]
    {
      if m == 3 {
      } else if m == 4 {
      } else if m == 5 {
      } else if m == 6 {
      } else if m == 7 {
      } else if m == 8 {
      } else if m == 9 {
      } else if m == 10 {
      } else {
      }
    }
  }

  /** The Julian-calendar part of the year terms: 1461 days per four
      years, the extra day falling in the March-based year ending in a year
      divisible by 4. */
  lemma JulianYearStep(y: int)
    requires y >= IYMIN
    ensures Div(1461 * (y + 4800), 4) - Div(1461 * (y - 1 + 4800), 4)
            == if y % 4 == 0 then 366 else 365
  {
    var q, r := (y + 4799) / 4, (y + 4799) % 4;
    assert y == 4 * (q - 1200) + r + 1;
    assert 1461 * (y + 4800) == 4 * (1461 * q + 365 * r + 365) + r + 1;
    assert 1461 * (y - 1 + 4800) == 4 * (1461 * q + 365 * r) + r;
    assert Div(1461 * (y - 1 + 4800), 4) == 1461 * q + 365 * r;
    assert Div(1461 * (y + 4800), 4) == 1461 * q + 365 * r + if r == 3 then 366 else 365;
  }

  /** The Gregorian correction drops a day at a century year unless it is
      divisible by 400. */
  lemma CenturyStep(y: int)
    requires y >= IYMIN
    ensures Div(3 * Div(y + 4900, 100), 4) - Div(3 * Div(y - 1 + 4900, 100), 4)
            == if y % 100 == 0 && y % 400 != 0 then 1 else 0
  {
    var c, c' := (y + 4900) / 100, (y + 4899) / 100;
    assert Div(y + 4900, 100) == c && Div(y - 1 + 4900, 100) == c';
    if y % 100 == 0 {
      var p, r := c / 4, c % 4;
      assert c == c' + 1 && y == 100 * c - 4900;
      assert y == 400 * p + 100 * r - 4900;
      assert y % 400 == 0 <==> r == 1;
      assert Div(3 * c, 4) == 3 * p + (3 * r) / 4;
      assert Div(3 * c', 4) == 3 * p + (3 * r - 3) / 4;
    } else {
      assert c == c';
    }
  }

  /** The year terms of `iauCal2jd` grow by the length of the March-based
      year that ends in February of `y`: 366 days exactly when `y` is a
      Gregorian leap year. */
  lemma YearTermsStep(y: int)
    requires y >= IYMIN
    ensures YearTerms(y) - YearTerms(y - 1) == if IsLeapYear(y) then 366 else 365
  {
    JulianYearStep(y);
    CenturyStep(y);
    LeapYearSteps(y, Div(1461 * (y + 4800), 4), Div(1461 * (y - 1 + 4800), 4),
                  Div(3 * Div(y + 4900, 100), 4), Div(3 * Div(y - 1 + 4900, 100), 4));
  }

  /** A Julian step of 366 days into years divisible by 4, less a Gregorian
      correction of one day at century years not divisible by 400, is a
      step of 366 days exactly into Gregorian leap years. */
  lemma LeapYearSteps(y: int, julian: int, julian': int, century: int, century': int)
    requires julian - julian' == if y % 4 == 0 then 366 else 365
    requires century - century' == if y % 100 == 0 && y % 400 != 0 then 1 else 0
    ensures (julian - century) - (julian' - century') == if IsLeapYear(y) then 366 else 365
  {
    if y % 100 == 0 {
      assert y == 4 * (25 * (y / 100));
    }
  }

  /** Consecutive calendar days convert to consecutive Modified Julian Days:
      the conversion counts days, with the Gregorian month lengths and leap
      years built in. */
  lemma Cal2jdCountsDays(y: int, m: int, d: int)
    requires ValidDate(y, m, d)
    ensures var n := NextDate(y, m, d);
            var r := Cal2jd(y, m, d);
            var r' := Cal2jd(n.0, n.1, n.2);
            r.Converted? && r'.Converted? && r'.djm == r.djm + 1
  {
    if d < MonthLength(y, m) {
      assert NextDate(y, m, d) == (y, m, d + 1);
      NextDayInMonth(y, m, d);
    } else if m == 2 {
      assert NextDate(y, m, d) == (y, 3, 1);
      NextDayIntoMarch(y);
    } else if m < 12 {
      assert NextDate(y, m, d) == (y, m + 1, 1);
      NextDayIntoMonth(y, m);
    } else {
      assert NextDate(y, m, d) == (y + 1, 1, 1);
      NextDayIntoJanuary(y);
    }
  }

  /** A day within its month and the next day of that month. */
  lemma NextDayInMonth(y: int, m: int, d: int)
    requires y >= IYMIN && 1 <= m <= 12
    ensures Cal2jd(y, m, d + 1).djm == Cal2jd(y, m, d).djm + 1
  {
    Cal2jdTerms(y, m, d);
    Cal2jdTerms(y, m, d + 1);
  }

  /** The last day of February and 1 March: the March-based year changes,
      and the year terms grow by the length of the year just ended. */
  lemma NextDayIntoMarch(y: int)
    requires y >= IYMIN
    ensures Cal2jd(y, 3, 1).djm == Cal2jd(y, 2, MonthLength(y, 2)).djm + 1
  {
    Cal2jdTerms(y, 2, MonthLength(y, 2));
    Cal2jdTerms(y, 3, 1);
    MonthTermValues();
    YearTermsStep(y);
  }

  /** The last day of a month other than February or December and the
      first of the next month, within one March-based year. */
  lemma NextDayIntoMonth(y: int, m: int)
    requires y >= IYMIN && 1 <= m <= 11 && m != 2
    ensures Cal2jd(y, m + 1, 1).djm == Cal2jd(y, m, MonthLength(y, m)).djm + 1
  {
    Cal2jdTerms(y, m, MonthLength(y, m));
    Cal2jdTerms(y, m + 1, 1);
    MonthTermSteps();
    assert MonthLength(y, m) == MonthDays[m - 1];
  }

  /** 31 December and 1 January, within one March-based year. */
  lemma NextDayIntoJanuary(y: int)
    requires y >= IYMIN
    ensures Cal2jd(y + 1, 1, 1).djm == Cal2jd(y, 12, 31).djm + 1
  {
    Cal2jdTerms(y, 12, 31);
    Cal2jdTerms(y + 1, 1, 1);
    MonthTermValues();
  }

  /** Two fixed points: the MJD origin 1858-11-17 and J2000's calendar day. */
  lemma Cal2jdEpochs()
    ensures Cal2jd(1858, 11, 17) == Converted(false, DJM0, 0)
    ensures Cal2jd(2000, 1, 1) == Converted(false, DJM0, 51544)
  {
    Cal2jdTerms(1858, 11, 17);
    Cal2jdTerms(2000, 1, 1);
    MonthTermValues();
    assert Div(1461 * 6658, 4) == 2431834 && Div(3 * Div(6758, 100), 4) == 50;
    assert Div(1461 * 6799, 4) == 2483334 && Div(3 * Div(6899, 100), 4) == 51;
  }

  // ---------------------------------------------------------------------
  // iauJd2cal
  // ---------------------------------------------------------------------

  /** The outcome of `iauJd2cal`: status -1 leaves the out-parameters
      unassigned; status 0 writes year, month, day and day fraction. */
  datatype Jd2calResult =
    | OutOfRange
    | Date(iy: int, im: int, id: int, fd: real)
  {
    function Status(): int {
      if OutOfRange? then -1 else 0
    }
  }

  /** The first half of `iauJd2cal`: order the two parts big then small,
      re-align to midnight and separate the whole days from the fraction.
      Returns the Julian Day Number whose noon starts the civil day, and the
      fraction of that day. */
  function SplitDay(dj1: real, dj2: real): (r: (int, real))
    ensures 0.0 <= r.1 < 1.0
    ensures (r.0 - 1) as real + r.1 == dj1 + dj2 - 0.5
  {
    var d1 := if dj1 >= dj2 then dj1 else dj2;
    var d2 := (if dj1 >= dj2 then dj2 else dj1) - 0.5;
    var f1 := FMod1(d1);
    var f2 := FMod1(d2);
    var f0 := FMod1(f1 + f2);
    var f := if f0 < 0.0 then f0 + 1.0 else f0;
    assert (f1 + f2 - f).Floor as real == f1 + f2 - f;
    var d := (d1 - f1).Floor + (d2 - f2).Floor + (f1 + f2 - f).Floor;
    (d + 1, f)
  }

  /** The Gregorian stage common to both versions: 400-year cycle `n`, day
      within it, and year within the century `i`. */
  function CenturyAndYear(jd: int): (r: (int, int, int))
  {
    var l0 := jd + 68569;
    var n := Div(4 * l0, 146097);
    var l1 := l0 - Div(146097 * n + 3, 4);
    var i := Div(4000 * (l1 + 1), 1461001);
    (n, l1, i)
  }

  /** The month stage of SOFA's conversion, from the 400-year cycle `n`,
      the day `l1` within the century and the year `i` within the century:
      the day of the March-based year, then month and day, in integer
      arithmetic throughout. */
  function DateOfStage(n: int, l1: int, i: int): (int, int, int) {
    var l2 := l1 - Div(1461 * i, 4) + 31;
    var k := Div(80 * l2, 2447);
    var id := l2 - Div(2447 * k, 80);
    var l3 := Div(k, 11);
    (100 * (n - 49) + i + l3, k + 2 - 12 * l3, id)
  }

  /** The calendar date of a Julian Day Number, in SOFA's integer
      arithmetic throughout. */
  function GregorianOf(jd: int): (int, int, int) {
    var (n, l1, i) := CenturyAndYear(jd);
    DateOfStage(n, l1, i)
  }

  /** The month stage as the IERS class writes it: the subtraction of
      `1461 * i / 4` is not truncated, so the day of the March-based year
      keeps a fraction of .25, .5 or .75 whenever `i` is not a multiple of 4,
      and the day is recovered with `round`. */
  function DateOfStageAsWritten(n: int, l1: int, i: int): (int, int, int) {
    var l2 := l1 as real - ((1461 * i) as real / 4.0 - 31.0);
    var k := TruncReal(80.0 * l2 / 2447.0);
    var id := Round(l2 - (2447 * k) as real / 80.0);
    var l3 := Div(k, 11);
    (100 * (n - 49) + i + l3, k + 2 - 12 * l3, id)
  }

  /** The calendar date of a Julian Day Number as the IERS class computes
      it. Its month is always January to December; where the year within
      the century is a multiple of 4 it names SOFA's year and month, and
      only the day can differ there. */
  function GregorianOfAsWritten(jd: int): (r: (int, int, int))
    ensures jd >= -68569 ==> 1 <= r.1 <= 12
    ensures CenturyAndYear(jd).2 % 4 == 0 ==> r.0 == GregorianOf(jd).0 && r.1 == GregorianOf(jd).1
  {
    var (n, l1, i) := CenturyAndYear(jd);
    if jd >= -68569 then
      CenturyAndYearBounds(jd);
      StageAsWrittenMonthInRange(n, l1, i);
      if i % 4 == 0 then
        StageAgreesOnLeapCycle(n, l1, i);
        DateOfStageAsWritten(n, l1, i)
      else DateOfStageAsWritten(n, l1, i)
    else if i % 4 == 0 then
      StageAgreesOnLeapCycle(n, l1, i);
      DateOfStageAsWritten(n, l1, i)
    else DateOfStageAsWritten(n, l1, i)
  }

  /** Where the year within the century is a multiple of 4 the missing
      truncation has nothing to cut, and the two month stages agree on year
      and month; only the day can differ, through `round`. */
  lemma StageAgreesOnLeapCycle(n: int, l1: int, i: int)
    requires i % 4 == 0
    ensures DateOfStageAsWritten(n, l1, i).0 == DateOfStage(n, l1, i).0
    ensures DateOfStageAsWritten(n, l1, i).1 == DateOfStage(n, l1, i).1
  {
    var j := i / 4;
    var l2 := l1 - 1461 * j + 31;
    assert 1461 * i == 4 * (1461 * j);
    assert Div(1461 * i, 4) == 1461 * j;
    assert (1461 * i) as real / 4.0 == (1461 * j) as real;
    assert 80.0 * (l2 as real) / 2447.0 == (80 * l2) as real / 2447 as real;
    TruncOfQuotient(80 * l2, 2447);
  }

  /** Off the leap cycle the class's day of the March-based year falls up
      to three quarters of a day short of SOFA's, which still leaves the
      month index in 0..12: the class always names a month from January to
      December, even where its day is not a day of that month. */
  lemma StageAsWrittenMonthInRange(n: int, l1: int, i: int)
    requires 0 <= l1 <= 36524 && 0 <= i <= 99 && i == Div(4000 * (l1 + 1), 1461001)
    ensures 1 <= DateOfStageAsWritten(n, l1, i).1 <= 12
  {
    DayOfYearBounds(l1, i);
    var q := Div(1461 * i, 4);
    var l2 := l1 as real - ((1461 * i) as real / 4.0 - 31.0);
    assert l2 == (l1 - q + 31) as real - (1461 * i - 4 * q) as real / 4.0;
    assert 30.0 <= l2 <= 396.0;
    var x := 80.0 * l2 / 2447.0;
    assert 0.0 <= x < 13.0;
    var k := TruncReal(x);
    assert 0 <= k <= 12;
  }

  /** The day count within the 400-year cycle stays within one century
      of 36525 days, reaching 36524 only in a century ending in a leap
      year; the year within the century is 0 to 99. */
  lemma CenturyAndYearBounds(jd: int)
    requires jd >= -68569
    ensures var (n, l1, i) := CenturyAndYear(jd);
            n >= 0 && 0 <= l1 <= 36524 && (l1 == 36524 ==> n % 4 == 0)
            && 0 <= i <= 99 && i == Div(4000 * (l1 + 1), 1461001)
            && l1 == jd + 68569 - Div(146097 * n + 3, 4)
  {
    var l0 := jd + 68569;
    var n := Div(4 * l0, 146097);
    var q1 := Div(146097 * n + 3, 4);
    var s := 146097 * n + 3 - 4 * q1;
    assert n + 3 == 4 * (q1 - 36524 * n) + s;
    assert s == (n + 3) % 4;
  }

  /** The day of the March-based year, counted from 31 on 1 March, runs
      to at most 396, and reaches 396 (29 February) only in the fourth year
      of a leap cycle, and in year 99 of a century only on the cycle's last
      day. */
  lemma DayOfYearBounds(l1: int, i: int)
    requires 0 <= l1 <= 36524 && 0 <= i <= 99 && i == Div(4000 * (l1 + 1), 1461001)
    ensures var l2 := l1 - Div(1461 * i, 4) + 31;
            31 <= l2 <= 396 && (l2 == 396 ==> i % 4 == 3 && (i == 99 ==> l1 == 36524))
  {
    var q2 := Div(1461 * i, 4);
    var t := 1461 * i - 4 * q2;
    assert i == 4 * (q2 - 365 * i) + t;
    assert t == i % 4;
  }

  /** The month stage turns a day of the March-based year into a month and
      a day of that month; the month term of `iauCal2jd` plus the day gives
      the day of the year back. */
  lemma MonthAndDay(l2: int)
    requires 31 <= l2 <= 396
    ensures var k := Div(80 * l2, 2447);
            var l3 := Div(k, 11);
            var m := k + 2 - 12 * l3;
            var d := l2 - Div(2447 * k, 80);
            1 <= m <= 12 && (l3 == if m <= 2 then 1 else 0)
            && 1 <= d <= MonthDays[m - 1] + (if l2 == 396 then 1 else 0)
            && (d == 29 && m == 2 ==> l2 == 396)
            && (l2 == 396 ==> m == 2 && d == 29)
            && MonthTerm(m) + d == l2
  {
    var k := Div(80 * l2, 2447);
    assert 2447 * k <= 80 * l2 < 2447 * k + 2447;
    assert 1 <= k <= 12;
    MonthIndexTable(k);
  }

  /** SOFA's month index `k` (1 for March through 12 for February): its
      month, and the span of days of the March-based year it covers, which
      is that month's span of month terms. */
  lemma MonthIndexTable(k: int)
    requires 1 <= k <= 12
    ensures var l3 := Div(k, 11);
            var m := k + 2 - 12 * l3;
            1 <= m <= 12 && (l3 == if m <= 2 then 1 else 0)
            && Div(2447 * k, 80) == MonthTerm(m)
            && 80 * MonthTerm(m) < 2447 * k
            && (k < 12 ==> 2447 * (k + 1) <= 80 * (MonthTerm(m) + MonthDays[m - 1] + 1))
            && (k == 12 ==> m == 2 && MonthTerm(m) == 367 && MonthDays[m - 1] == 28)
  {
    MonthTermValues();
    if k == 1 {
      assert Div(2447 * k, 80) == 30;
    } else if k == 2 {
      assert Div(2447 * k, 80) == 61;
    } else if k == 3 {
      assert Div(2447 * k, 80) == 91;
    } else if k == 4 {
      assert Div(2447 * k, 80) == 122;
    } else if k == 5 {
      assert Div(2447 * k, 80) == 152;
    } else if k == 6 {
      assert Div(2447 * k, 80) == 183;
    } else if k == 7 {
      assert Div(2447 * k, 80) == 214;
    } else if k == 8 {
      assert Div(2447 * k, 80) == 244;
    } else if k == 9 {
      assert Div(2447 * k, 80) == 275;
    } else if k == 10 {
      assert Div(2447 * k, 80) == 305;
    } else if k == 11 {
      assert Div(2447 * k, 80) == 336;
    } else {
      assert Div(2447 * k, 80) == 367;
    }
  }

  /** The year that holds 29 February of the March-based year `i` of
      cycle `n` is a leap year when `i` is the fourth year of a leap cycle,
      and for year 99 when the cycle `n` is a multiple of 4. */
  lemma LeapDayYear(n: int, i: int)
    requires 0 <= i <= 99 && i % 4 == 3 && (i == 99 ==> n % 4 == 0)
    ensures IsLeapYear(100 * (n - 49) + i + 1)
  {
    var y := 100 * (n - 49) + i + 1;
    if i == 99 {
      assert y == 400 * ((n - 48) / 4);
    } else {
      assert y == 4 * (25 * (n - 49) + (i + 1) / 4);
      assert y % 100 == i + 1;
    }
  }

  /** Within the bounds the first stage keeps, the month stage yields a
      calendar date: a month of the year and a day within that month's
      length, 29 February only in a leap year. */
  lemma MonthStageIsDate(n: int, l1: int, i: int, l2: int, k: int, l3: int, y: int, m: int, d: int)
    requires 0 <= l1 <= 36524 && (l1 == 36524 ==> n % 4 == 0)
    requires 0 <= i <= 99 && i == Div(4000 * (l1 + 1), 1461001)
    requires l2 == l1 - Div(1461 * i, 4) + 31
    requires k == Div(80 * l2, 2447) && l3 == Div(k, 11)
    requires y == 100 * (n - 49) + i + l3 && m == k + 2 - 12 * l3 && d == l2 - Div(2447 * k, 80)
    ensures 1 <= m <= 12 && 1 <= d <= MonthLength(y, m) && 0 <= l3 <= 1
  {
    DayOfYearBounds(l1, i);
    MonthAndDay(l2);
    if l2 == 396 {
      assert l3 == 1 && m == 2 && d == 29;
      LeapDayYear(n, i);
      assert MonthLength(y, m) == 29;
    } else {
      assert d <= MonthDays[m - 1];
      assert MonthLength(y, m) >= MonthDays[m - 1];
    }
  }

  /** The month stage's date, as a calendar date. */
  lemma StageIsDate(n: int, l1: int, i: int)
    requires 0 <= l1 <= 36524 && (l1 == 36524 ==> n % 4 == 0)
    requires 0 <= i <= 99 && i == Div(4000 * (l1 + 1), 1461001)
    ensures 1 <= DateOfStage(n, l1, i).1 <= 12
    ensures 1 <= DateOfStage(n, l1, i).2 <= MonthLength(DateOfStage(n, l1, i).0, DateOfStage(n, l1, i).1)
  {
    var l2 := l1 - Div(1461 * i, 4) + 31;
    var k := Div(80 * l2, 2447);
    var l3 := Div(k, 11);
    var y := 100 * (n - 49) + i + l3;
    var m := k + 2 - 12 * l3;
    var d := l2 - Div(2447 * k, 80);
    assert DateOfStage(n, l1, i) == (y, m, d);
    MonthStageIsDate(n, l1, i, l2, k, l3, y, m, d);
  }

  /** SOFA's Gregorian stage yields a calendar date for every Julian Day
      Number `iauJd2cal` accepts. */
  lemma GregorianOfIsDate(jd: int)
    requires jd >= -68569
    ensures 1 <= GregorianOf(jd).1 <= 12
    ensures 1 <= GregorianOf(jd).2 <= MonthLength(GregorianOf(jd).0, GregorianOf(jd).1)
  {
    CenturyAndYearBounds(jd);
    var (n, l1, i) := CenturyAndYear(jd);
    StageIsDate(n, l1, i);
  }

  /** The year terms of `iauCal2jd` for the March-based year of cycle `n`
      and year `i` within its century. */
  lemma YearTermsOfCentury(n: int, i: int)
    requires n >= 1 && 0 <= i <= 99
    ensures YearTerms(100 * (n - 49) + i) == Div(146097 * n + 3, 4) + Div(1461 * i, 4) - 36525
  {
    var a := 100 * (n - 49) + i;
    assert Div(a + 4900, 100) == n;
    assert 1461 * (a + 4800) == 4 * (36525 * (n - 1)) + 1461 * i;
    assert Div(1461 * (a + 4800), 4) == 36525 * n - 36525 + Div(1461 * i, 4);
    var q := Div(146097 * n + 3, 4);
    var s := 146097 * n + 3 - 4 * q;
    var r := 3 * n - 4 * Div(3 * n, 4);
    assert 0 <= r < 4 && 0 <= s < 4;
    assert 4 * (q - 36525 * n + Div(3 * n, 4)) == 3 - s - r;
  }

  /** The day count of the corrected stage, term by term: cycle and year
      terms plus the day of the March-based year give the day back. */
  lemma DayCountOfStage(jd: int, n: int, i: int, m: int, d: int)
    requires n >= 1 && 0 <= i <= 99 && 1 <= m <= 12
    requires MonthTerm(m) + d == jd + 68569 - Div(146097 * n + 3, 4) - Div(1461 * i, 4) + 31
    ensures YearTerms(100 * (n - 49) + i) + MonthTerm(m) + d - 2432076 == jd - 2400001
  {
    YearTermsOfCentury(n, i);
  }

  /** A valid date whose terms add up to `djm` converts to it. */
  lemma ConvertsTo(y: int, m: int, d: int, a: int, l3: int, djm: int)
    requires ValidDate(y, m, d) && y == a + l3 && l3 == (if m <= 2 then 1 else 0)
    requires YearTerms(a) + MonthTerm(m) + d - 2432076 == djm
    ensures Cal2jd(y, m, d) == Converted(false, DJM0, djm)
  {
    Cal2jdTerms(y, m, d);
  }

  /** The `iauCal2jd` terms of the corrected stage's date add up to the
      day it came from, stage by stage. */
  lemma StageTerms(jd: int, n: int, l1: int, i: int, l2: int, k: int, l3: int, m: int, d: int)
    requires n >= 1 && 0 <= l1 <= 36524 && 0 <= i <= 99 && i == Div(4000 * (l1 + 1), 1461001)
    requires l1 == jd + 68569 - Div(146097 * n + 3, 4)
    requires l2 == l1 - Div(1461 * i, 4) + 31
    requires k == Div(80 * l2, 2447) && l3 == Div(k, 11)
    requires m == k + 2 - 12 * l3 && d == l2 - Div(2447 * k, 80)
    ensures 1 <= m <= 12 && (l3 == if m <= 2 then 1 else 0)
    ensures YearTerms(100 * (n - 49) + i) + MonthTerm(m) + d - 2432076 == jd - 2400001
  {
    DayOfYearBounds(l1, i);
    MonthAndDay(l2);
    DayCountOfStage(jd, n, i, m, d);
  }

  /** The month stage's date converts back to the day the first stage
      started from. */
  lemma StageInverts(jd: int, n: int, l1: int, i: int, y: int, m: int, d: int)
    requires 0 <= l1 <= 36524 && (l1 == 36524 ==> n % 4 == 0)
    requires 0 <= i <= 99 && i == Div(4000 * (l1 + 1), 1461001)
    requires l1 == jd + 68569 - Div(146097 * n + 3, 4)
    requires DateOfStage(n, l1, i) == (y, m, d) && y >= IYMIN
    ensures Cal2jd(y, m, d) == Converted(false, DJM0, jd - 2400001)
  {
    var l2 := l1 - Div(1461 * i, 4) + 31;
    var k := Div(80 * l2, 2447);
    var l3 := Div(k, 11);
    assert y == 100 * (n - 49) + i + l3 && m == k + 2 - 12 * l3 && d == l2 - Div(2447 * k, 80);
    StageConverts(jd, n, l1, i, l2, k, l3, y, m, d);
  }

  /** The month stage's date, stage by stage, converts back to the day the
      first stage started from. */
  lemma StageConverts(jd: int, n: int, l1: int, i: int, l2: int, k: int, l3: int, y: int, m: int, d: int)
    requires 0 <= l1 <= 36524 && (l1 == 36524 ==> n % 4 == 0)
    requires 0 <= i <= 99 && i == Div(4000 * (l1 + 1), 1461001)
    requires l1 == jd + 68569 - Div(146097 * n + 3, 4)
    requires l2 == l1 - Div(1461 * i, 4) + 31
    requires k == Div(80 * l2, 2447) && l3 == Div(k, 11)
    requires y == 100 * (n - 49) + i + l3 && m == k + 2 - 12 * l3 && d == l2 - Div(2447 * k, 80)
    requires y >= IYMIN
    ensures Cal2jd(y, m, d) == Converted(false, DJM0, jd - 2400001)
  {
    MonthStageIsDate(n, l1, i, l2, k, l3, y, m, d);
    assert n >= 1;
    StageTerms(jd, n, l1, i, l2, k, l3, m, d);
    assert ValidDate(y, m, d) && y == 100 * (n - 49) + i + l3 && l3 == (if m <= 2 then 1 else 0);
    assert YearTerms(100 * (n - 49) + i) + MonthTerm(m) + d - 2432076 == jd - 2400001;
    ConvertsTo(y, m, d, 100 * (n - 49) + i, l3, jd - 2400001);
  }

  /** `iauCal2jd` undoes SOFA's Gregorian stage: the date of a Julian Day
      Number converts back to that day, as a valid date. */
  lemma GregorianOfInvertsCal2jd(jd: int)
    requires jd >= -68569 && GregorianOf(jd).0 >= IYMIN
    ensures var (y, m, d) := GregorianOf(jd);
            Cal2jd(y, m, d) == Converted(false, DJM0, jd - 2400001)
  {
    CenturyAndYearBounds(jd);
    var (n, l1, i) := CenturyAndYear(jd);
    var g := GregorianOf(jd);
    StageInverts(jd, n, l1, i, g.0, g.1, g.2);
  }

  /** From Julian Day Number -31738 (1 January 4800 BC) on, the corrected
      stage's year is one `iauCal2jd` accepts. */
  lemma GregorianYearInRange(jd: int)
    requires jd >= -31738
    ensures GregorianOf(jd).0 >= IYMIN
  {
    CenturyAndYearBounds(jd);
    var (n, l1, i) := CenturyAndYear(jd);
    DayOfYearBounds(l1, i);
    var l2 := l1 - Div(1461 * i, 4) + 31;
    MonthAndDay(l2);
    var k := Div(80 * l2, 2447);
    var l3 := Div(k, 11);
    assert GregorianOf(jd).0 == 100 * (n - 49) + i + l3;
    assert n >= 1;
    if n == 1 && i == 0 {
      assert l1 == jd + 68569 - 36525;
      assert k >= 11;
    }
  }

  /** `iauJd2cal` with SOFA's integer arithmetic (the corrected form). */
  function Jd2cal(dj1: real, dj2: real): (r: Jd2calResult)
    ensures r.OutOfRange? <==> dj1 + dj2 < DJMIN || dj1 + dj2 > DJMAX
    ensures r.Date? ==> 0.0 <= r.fd < 1.0
    ensures r.Date? ==> (SplitDay(dj1, dj2).0 - 1) as real + r.fd == dj1 + dj2 - 0.5
    ensures r.Date? ==> 1 <= r.im <= 12 && 1 <= r.id <= MonthLength(r.iy, r.im)
  {
    var dj := dj1 + dj2;
    if dj < DJMIN || dj > DJMAX then OutOfRange
    else
      var (jd, f) := SplitDay(dj1, dj2);
      GregorianOfIsDate(jd);
      var (iy, im, id) := GregorianOf(jd);
      Date(iy, im, id, f)
  }

  /** `iauJd2cal` exactly as the IERS class writes it. */
  function Jd2calAsWritten(dj1: real, dj2: real): (r: Jd2calResult)
    ensures r.OutOfRange? <==> dj1 + dj2 < DJMIN || dj1 + dj2 > DJMAX
    ensures r.Date? ==> 0.0 <= r.fd < 1.0
    ensures r.Date? ==> r.fd == Jd2cal(dj1, dj2).fd
    ensures r.Date? ==> 1 <= r.im <= 12
  {
    var dj := dj1 + dj2;
    if dj < DJMIN || dj > DJMAX then OutOfRange
    else
      var (jd, f) := SplitDay(dj1, dj2);
      var (iy, im, id) := GregorianOfAsWritten(jd);
      Date(iy, im, id, f)
  }

  /** A whole Modified Julian Day lands at the start of its civil day. */
  lemma SplitWholeMjd(djm: int)
    ensures SplitDay(DJM0, djm as real) == (djm + 2400001, 0.0)
  {
    var r := SplitDay(DJM0, djm as real);
    assert (r.0 - 1 - 2400000 - djm) as real + r.1 == 0.0;
  }

  /** Round trip: the date the corrected `iauJd2cal` gives for a whole
      Modified Julian Day from 1 January 4800 BC to the upper limit is a
      valid date at midnight, and `iauCal2jd` takes it back to that day. */
  lemma Jd2calInvertsCal2jd(djm: int)
    requires -2431739 <= djm <= 997599999
    ensures var r := Jd2cal(DJM0, djm as real);
            r.Date? && r.fd == 0.0 && ValidDate(r.iy, r.im, r.id)
            && Cal2jd(r.iy, r.im, r.id) == Converted(false, DJM0, djm)
  {
    SplitWholeMjd(djm);
    var jd := djm + 2400001;
    GregorianYearInRange(jd);
    GregorianOfInvertsCal2jd(jd);
    var g := GregorianOf(jd);
    assert Jd2cal(DJM0, djm as real) == Date(g.0, g.1, g.2, 0.0);
  }

  /** The March-based year of a date: January and February count with the
      year before. */
  function MarchYear(y: int, m: int): int {
    if m <= 2 then y - 1 else y
  }

  /** The month terms of all twelve months. */
  lemma MonthTermValues()
    ensures MonthTerm(3) == 30 && MonthTerm(4) == 61 && MonthTerm(5) == 91
    ensures MonthTerm(6) == 122 && MonthTerm(7) == 152 && MonthTerm(8) == 183
    ensures MonthTerm(9) == 214 && MonthTerm(10) == 244 && MonthTerm(11) == 275
    ensures MonthTerm(12) == 305 && MonthTerm(1) == 336 && MonthTerm(2) == 367
  {
  }

  /** The day term `MonthTerm(m) + d` of a valid date runs from 31 (1 March)
      through the length of its March-based year. */
  lemma MarchDayBounds(y: int, m: int, d: int)
    requires ValidDate(y, m, d)
    ensures 31 <= MonthTerm(m) + d
    ensures MonthTerm(m) + d - 31 < YearTerms(MarchYear(y, m) + 1) - YearTerms(MarchYear(y, m))
  {
    MonthIndexOfDay(y, m, d);
    YearTermsStep(MarchYear(y, m) + 1);
  }

  /** The year terms only grow, by at least 365 a year. */
  lemma {:induction false} YearTermsGrow(a: int, b: int)
    requires IYMIN - 1 <= a < b
    ensures YearTerms(a) + 365 <= YearTerms(a + 1) <= YearTerms(b)
    decreases b - a
  {
    YearTermsStep(a + 1);
    if a + 1 < b {
      YearTermsGrow(a + 1, b);
    }
  }

  /** SOFA's month index `k = 80 l / 2447` read back from the day term of
      a valid date: 1 for March through 10 for December, 11 for January and
      12 for February. */
  lemma MonthIndexOfDay(y: int, m: int, d: int)
    requires ValidDate(y, m, d)
    ensures Div(80 * (MonthTerm(m) + d), 2447) == if m >= 3 then m - 2 else m + 10
    ensures MonthTerm(m) + d <= 396
  {
    MonthTermValues();
    if m == 1 {
    } else if m == 2 {
    } else if m == 3 {
    } else if m == 4 {
    } else if m == 5 {
    } else if m == 6 {
    } else if m == 7 {
    } else if m == 8 {
    } else if m == 9 {
    } else if m == 10 {
    } else if m == 11 {
    } else {
    }
  }

  /** A valid date of a later March-based year has a larger sum of terms,
      so `iauCal2jd` takes it to a later day. */
  lemma LaterYearLaterDay(y: int, m: int, d: int, y': int, m': int, d': int)
    requires ValidDate(y, m, d) && ValidDate(y', m', d')
    requires MarchYear(y, m) < MarchYear(y', m')
    ensures YearTerms(MarchYear(y, m)) + MonthTerm(m) + d < YearTerms(MarchYear(y', m')) + MonthTerm(m') + d'
  {
    var a, a' := MarchYear(y, m), MarchYear(y', m');
    MarchDayBounds(y, m, d);
    MarchDayBounds(y', m', d');
    YearTermsGrow(a, a');
    DayCountOrder(YearTerms(a), YearTerms(a + 1), YearTerms(a'), MonthTerm(m) + d, MonthTerm(m') + d');
  }

  /** A day term short of the year's end, plus that year's terms, stays
      below the terms of any later year plus a day term from 31 on. */
  lemma DayCountOrder(ya: int, ya1: int, yb: int, t: int, t': int)
    requires t - 31 < ya1 - ya && ya1 <= yb && 31 <= t'
    ensures ya + t < yb + t'
  {
  }

  /** Two valid dates on one day share their March-based year and their
      day term. */
  lemma MarchYearOfDay(y: int, m: int, d: int, y': int, m': int, d': int)
    requires ValidDate(y, m, d) && ValidDate(y', m', d')
    requires Cal2jd(y, m, d) == Cal2jd(y', m', d')
    ensures MarchYear(y, m) == MarchYear(y', m')
    ensures MonthTerm(m) + d == MonthTerm(m') + d'
  {
    Cal2jdTerms(y, m, d);
    Cal2jdTerms(y', m', d');
    if MarchYear(y, m) < MarchYear(y', m') {
      LaterYearLaterDay(y, m, d, y', m', d');
    } else if MarchYear(y', m') < MarchYear(y, m) {
      LaterYearLaterDay(y', m', d', y, m, d);
    }
  }

  /** `iauCal2jd` never sends two valid dates to the same day. */
  lemma Cal2jdInjective(y: int, m: int, d: int, y': int, m': int, d': int)
    requires ValidDate(y, m, d) && ValidDate(y', m', d')
    requires Cal2jd(y, m, d) == Cal2jd(y', m', d')
    ensures y == y' && m == m' && d == d'
  {
    MarchYearOfDay(y, m, d, y', m', d');
    MonthIndexOfDay(y, m, d);
    MonthIndexOfDay(y', m', d');
  }

  /** No valid date precedes 1 January 4800 BC, MJD -2431739. */
  lemma Cal2jdLowerBound(y: int, m: int, d: int)
    requires ValidDate(y, m, d)
    ensures Cal2jd(y, m, d).Converted? && Cal2jd(y, m, d).djm >= -2431739
  {
    Cal2jdTerms(y, m, d);
    MarchDayBounds(y, m, d);
    MonthTermSteps();
    var a := MarchYear(y, m);
    assert YearTerms(-4800) == 0 && YearTerms(-4799) == 365;
    if a > -4799 {
      YearTermsGrow(-4799, a);
    }
  }

  /** Round trip from the calendar: for every valid date up to the upper
      limit, the corrected `iauJd2cal` of the day `iauCal2jd` gives returns
      that very date, at midnight. */
  lemma Cal2jdThenJd2cal(y: int, m: int, d: int)
    requires ValidDate(y, m, d)
    requires Cal2jd(y, m, d).Converted? && Cal2jd(y, m, d).djm <= 997599999
    ensures Jd2cal(DJM0, Cal2jd(y, m, d).djm as real) == Date(y, m, d, 0.0)
  {
    var djm := Cal2jd(y, m, d).djm;
    Cal2jdLowerBound(y, m, d);
    Jd2calInvertsCal2jd(djm);
    var r := Jd2cal(DJM0, djm as real);
    Cal2jdInjective(r.iy, r.im, r.id, y, m, d);
  }

  /** The century and year-in-century stage on 2000-01-02 (Julian Day
      Number 2451546) and on 2000-03-01 (2451605), the first day of a 400-year cycle. */
  lemma CenturyAndYearAt2000()
    ensures CenturyAndYear(2451546) == (68, 36466, 99)
    ensures CenturyAndYear(2451605) == (69, 0, 0)
  {
  }

  /** The month stage of 2000-01-02, both ways. */
  lemma StagesAtJanuary()
    ensures DateOfStage(68, 36466, 99) == (2000, 1, 2)
    ensures DateOfStageAsWritten(68, 36466, 99) == (2000, 1, 1)
  {
    assert Div(1461 * 99, 4) == 36159;
    assert Div(80 * 338, 2447) == 11;
    assert Div(2447 * 11, 80) == 336;
    var l2 := 36466 as real - ((1461 * 99) as real / 4.0 - 31.0);
    assert l2 == 337.25;
    var x := 80.0 * l2 / 2447.0;
    assert 11.0 <= x < 12.0;
    assert TruncReal(x) == 11;
    var e := l2 - (2447 * 11) as real / 80.0;
    assert e == 0.7875;
    assert Round(e) == 1;
  }

  /** The month stage of 2000-03-01, both ways. */
  lemma StagesAtMarch()
    ensures DateOfStage(69, 0, 0) == (2000, 3, 1)
    ensures DateOfStageAsWritten(69, 0, 0) == (2000, 3, 0)
  {
    assert Div(80 * 31, 2447) == 1;
    assert Div(2447, 80) == 30;
    var l2 := 0 as real - ((1461 * 0) as real / 4.0 - 31.0);
    assert l2 == 31.0;
    var x := 80.0 * l2 / 2447.0;
    assert 1.0 <= x < 2.0;
    assert TruncReal(x) == 1;
    var e := l2 - (2447 * 1) as real / 80.0;
    assert e == 0.4125;
    assert Round(e) == 0;
  }

  /** 2000-01-02 comes out as 2000-01-01: with `i` = 99 the day of the year
      keeps a fraction of .75 (line 848). */
  lemma AsWrittenMisdatesJanuary()
    ensures GregorianOf(2451546) == (2000, 1, 2)
    ensures GregorianOfAsWritten(2451546) == (2000, 1, 1)
  {
    CenturyAndYearAt2000();
    StagesAtJanuary();
  }

  /** 2000-03-01 comes out as 2000-03-00: here the day of the year is whole,
      but `round` stands where SOFA truncates (line 850). */
  lemma AsWrittenMisdatesMarch()
    ensures GregorianOf(2451605) == (2000, 3, 1)
    ensures GregorianOfAsWritten(2451605) == (2000, 3, 0)
  {
    CenturyAndYearAt2000();
    StagesAtMarch();
  }

  /** The century and year-in-century stage of Julian Day Number 2041715
      (3 December 877). */
  lemma CenturyAndYearIn877()
    ensures CenturyAndYear(2041715) == (57, 28401, 77)
  {
    assert Div(4 * 2110284, 146097) == 57;
    assert Div(146097 * 57 + 3, 4) == 2081883;
    assert Div(4000 * 28402, 1461001) == 77;
  }

  /** Julian Day Number 2041715 is 3 December 877; the class dates it
      2 December, as `i` = 77 leaves a quarter day on the day of the year. */
  lemma GregorianOfIn877()
    ensures GregorianOf(2041715) == (877, 12, 3)
    ensures GregorianOfAsWritten(2041715) == (877, 12, 2)
  {
    CenturyAndYearIn877();
    assert Div(1461 * 77, 4) == 28124;
    assert Div(80 * 308, 2447) == 10;
    assert Div(2447 * 10, 80) == 305;
    var l2 := 28401 as real - ((1461 * 77) as real / 4.0 - 31.0);
    assert l2 == 307.75;
    var x := 80.0 * l2 / 2447.0;
    assert 10.0 <= x < 11.0;
    assert TruncReal(x) == 10;
    var e := l2 - (2447 * 10) as real / 80.0;
    assert e == 1.875;
    assert Round(e) == 2;
  }

  /** The century and year-in-century stage of Julian Day Number 2325902
      (1 January 1656). */
  lemma CenturyAndYearIn1656()
    ensures CenturyAndYear(2325902) == (65, 20394, 55)
  {
    assert Div(4 * 2394471, 146097) == 65;
    assert Div(146097 * 65 + 3, 4) == 2374077;
    assert Div(4000 * 20395, 1461001) == 55;
  }

  /** Julian Day Number 2325902 is 1 January 1656; the class dates it
      30 December 1655: the quarter day the missing truncation leaves keeps
      the day of the year below the start of January. */
  lemma AsWrittenMisdatesNewYear1656()
    ensures GregorianOf(2325902) == (1656, 1, 1)
    ensures GregorianOfAsWritten(2325902) == (1655, 12, 30)
  {
    CenturyAndYearIn1656();
    assert Div(1461 * 55, 4) == 20088;
    assert Div(80 * 337, 2447) == 11;
    assert Div(2447 * 11, 80) == 336;
    assert Div(11, 11) == 1;
    var l2 := 20394 as real - ((1461 * 55) as real / 4.0 - 31.0);
    assert l2 == 336.25;
    var x := 80.0 * l2 / 2447.0;
    assert 10.0 <= x < 11.0;
    assert TruncReal(x) == 10;
    var e := l2 - (2447 * 10) as real / 80.0;
    assert e == 30.375;
    assert Round(e) == 30;
  }

  /** MJD 51545 is 2000-01-02 and MJD 51604 is 2000-03-01 by `iauCal2jd`. */
  lemma Cal2jdIn2000()
    ensures Cal2jd(2000, 1, 2) == Converted(false, DJM0, 51545)
    ensures Cal2jd(2000, 3, 1) == Converted(false, DJM0, 51604)
  {
    Cal2jdTerms(2000, 1, 2);
    Cal2jdTerms(2000, 3, 1);
    MonthTermSteps();
    assert YearTerms(1999) == 2483283 && YearTerms(2000) == 2483649;
  }

  /** Both conversions of MJD 51545. */
  lemma Jd2calAt51545()
    ensures Jd2cal(DJM0, 51545.0) == Date(2000, 1, 2, 0.0)
    ensures Jd2calAsWritten(DJM0, 51545.0) == Date(2000, 1, 1, 0.0)
  {
    SplitWholeMjd(51545);
    AsWrittenMisdatesJanuary();
  }

  /** Both conversions of MJD 51604. */
  lemma Jd2calAt51604()
    ensures Jd2cal(DJM0, 51604.0) == Date(2000, 3, 1, 0.0)
    ensures Jd2calAsWritten(DJM0, 51604.0) == Date(2000, 3, 0, 0.0)
  {
    SplitWholeMjd(51604);
    AsWrittenMisdatesMarch();
  }

  /** MJD 51545 is 2000-01-02 and MJD 51604 is 2000-03-01 by `iauCal2jd`,
      and the corrected `iauJd2cal` returns them, but the routine as written
      returns 2000-01-01 and 2000-03-00. */
  lemma Jd2calAsWrittenMisdates()
    ensures Cal2jd(2000, 1, 2) == Converted(false, DJM0, 51545)
    ensures Cal2jd(2000, 3, 1) == Converted(false, DJM0, 51604)
    ensures Jd2cal(DJM0, 51545.0) == Date(2000, 1, 2, 0.0)
    ensures Jd2calAsWritten(DJM0, 51545.0) == Date(2000, 1, 1, 0.0)
    ensures Jd2cal(DJM0, 51604.0) == Date(2000, 3, 1, 0.0)
    ensures Jd2calAsWritten(DJM0, 51604.0) == Date(2000, 3, 0, 0.0)
  {
    Cal2jdIn2000();
    Jd2calAt51545();
    Jd2calAt51604();
  }

  /** The routine as written breaks the round trip: `iauCal2jd` takes its
      date for MJD 51545 to 51544, and rejects its date for MJD 51604 as a
      day out of range, which it converts to 51603. */
  lemma AsWrittenBreaksRoundTrip()
    ensures var r := Jd2calAsWritten(DJM0, 51545.0);
            r.Date? && Cal2jd(r.iy, r.im, r.id) == Converted(false, DJM0, 51544)
    ensures var r := Jd2calAsWritten(DJM0, 51604.0);
            r.Date? && !ValidDate(r.iy, r.im, r.id)
            && Cal2jd(r.iy, r.im, r.id) == Converted(true, DJM0, 51603)
  {
    Jd2calAsWrittenMisdates();
    Cal2jdEpochs();
    Cal2jdTerms(2000, 3, 0);
    MonthTermSteps();
    assert YearTerms(2000) == 2483649;
  }
}
