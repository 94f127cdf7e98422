# phpIERS numeric engine in Dafny

phpIERS (`Marando\IERS\IERS`) answers Earth-orientation queries for one
instant, given as a Julian Day (`jd`) or Modified Julian Day (`mjd`):

- UT1-UTC (`dut1`) and the pole offsets (`x`, `y`). It reads ten records
  of IERS `finals.all` around the query's MJD. For each record it takes the
  final (Bulletin B) value, or else the predicted (Bulletin A) one. It then
  interpolates with a Lagrange polynomial.
- TT-UT1 (`deltaT`). This comes from one of three tables. The historic
  table holds yearly and half-yearly values before 1973-02-01. The monthly
  table runs from then to its last line. The quarterly predictions cover
  what lies beyond. Each table line is dated through the SOFA routine
  `iauCal2jd`. The query's own calendar date comes from the class's
  `iauJd2cal`.
- TAI-UTC (`leapSec`). This is a step function, read by scanning
  `tai-utc.dat` from its first line.

The model has one module per part of the engine:

- `Php`: the PHP primitives the engine relies on, given an exact meaning.
  `intval` and `(int)` truncate toward zero. `fmod` keeps the sign of the
  dividend. `round` rounds halves away from zero. The module also defines
  `trim`, `substr` and PHP string truthiness. Every query ends in one of
  three ways, written as the datatype `Outcome`: a value, the literal
  `false`, or an exception.
- `Calendar`: `iauCal2jd`, and `iauJd2cal` in two versions. One is the
  class's version as written; the other is SOFA's integer arithmetic (see
  Findings).
- `Lagrange`: `lagrangeInterp`, both as a recursive definition and as the
  original nested loops.
- `Instant`: the instance, built by `IERS::jd` or `IERS::mjd`.
- `Bulletin`: what all bulletin queries share. This covers line access,
  where a line past the end reads as empty, and the numeric casts. It also
  covers the ten lines a window reads.
- `Finals`: `dut1`, `x` and `y`.
- `DeltaT`: `deltaT` and its three paths.
- `LeapSeconds`: `leapSec`.

Files are sequences of lines. PHP's `(float)` and `(int)` casts of a field
are passed in as a `Numeric` value of two functions. The last Julian Day
of the monthly ΔT table (`deltaT_lastJD`) is a parameter too.

Behaviours of the code the model keeps:

- The `finals.all` pointer is not floored (`src/Marando/IERS/IERS.php:170`).
  It keeps the query's day fraction, and the line seeked is the truncation
  of the float counter (`src/Marando/IERS/IERS.php:184-185`).
- A final value of `0` is falsy in PHP, so the predicted value is used in
  its place (`src/Marando/IERS/IERS.php:194`).
- Only `dut1` throws when its pointer passes the last line
  (`src/Marando/IERS/IERS.php:177-180`). `x` and `y` have no such check;
  they read an empty line there and return false.
- `iauCal2jd` still converts a date whose day is out of range. It only
  flags the date with status -3 (`src/Marando/IERS/IERS.php:891-902`).
- Two records with one abscissa make `lagrangeInterp` divide by zero
  (`src/Marando/IERS/IERS.php:690`). The model treats this as an
  exception, as PHP 8 raises it.
- The prediction pointer is reset to `INTERP_C + 3`, and it throws only
  past `maxLine - INTERP_C` (`src/Marando/IERS/IERS.php:553-569`).
- `deltaT` dates the query with the class's own `iauJd2cal`
  (`src/Marando/IERS/IERS.php:432`, `:486`, `:542`), with the discrepancy
  listed under Findings. The ΔT functions take a `Dating`: `AsWritten` is
  the program, `Corrected` dates the query with SOFA's routine instead.
- `leapSec` breaks on an entry strictly after the query
  (`src/Marando/IERS/IERS.php:363-366`). So an entry applies from its own
  Julian Day on, whatever the comment at `src/Marando/IERS/IERS.php:363`
  says. The test at
  `tests/src/Marando/IERS/IERSTest.php:138` expects the 2012 offset a
  tenth of a day before that entry takes effect. Neither a strict nor a
  non-strict comparison yields that.

## Model

| member | source | states |
|---|---|---|
| Php.Div | src/Marando/IERS/IERS.php:845-847 | `intval(a / b)` for a positive divisor: the remainder `a - q*b` lies in `[0, b)` for non-negative `a` and in `(-b, 0]` for negative `a`, i.e. truncation toward zero, not Dafny's Euclidean division |
| Php.TruncReal | src/Marando/IERS/IERS.php:466 | `intval` of a float lies within one unit of it, below it for non-negative and above it for negative arguments |
| Php.TruncOfQuotient | src/Marando/IERS/IERS.php:849 | truncating the exact real quotient of two integers equals the integer truncating division, so `intval((80*$l)/2447)` means the same computed either way |
| Php.TruncIsWhole | src/Marando/IERS/IERS.php:466 | `intval($y) == $y` holds exactly when the float is a whole number, for negative values too |
| Php.FMod1 | src/Marando/IERS/IERS.php:834-836 | `fmod(x, 1.0)` lies strictly between -1 and 1, carries the sign of `x`, and `x` minus it is whole |
| Php.Round | src/Marando/IERS/IERS.php:850 | `round` lands within one half of its argument, and an exact half goes away from zero |
| Php.Trim | src/Marando/IERS/IERS.php:194-197 | `trim` is the slice of its input with only blanks before and after it that neither starts nor ends with a blank, so exactly the input less its leading and trailing blanks; it is empty exactly when the input is all blanks |
| Php.Substr | src/Marando/IERS/IERS.php:189-191 | `substr` returns the slice starting at `start`, of the requested length or cut at the end of the string, and the empty string for a start past the end |
| Bulletin.WindowLines | src/Marando/IERS/IERS.php:184-186 | a window reads `2 * INTERP_C` lines, entry `k` being the line seeked in iteration `k`; for a centre `p` from `INTERP_C` on that is line `floor(p) - INTERP_C + k`, or an empty line past the end |
| Bulletin.WindowInside | src/Marando/IERS/IERS.php:184-186 | a centre from `INTERP_C` on, whose window ends inside the file, reads only lines that exist and are not the last, so no row is read from beyond the file |
| Lagrange.Interpolate | src/Marando/IERS/IERS.php:680-698 | interpolation throws exactly when two rows share an abscissa; it never returns false; an empty table gives 0 and a one-row table gives that row's value |
| Lagrange.BasisAtOwnNode | src/Marando/IERS/IERS.php:687-692 | a row's basis product is 1 at its own abscissa |
| Lagrange.BasisAtOtherNode | src/Marando/IERS/IERS.php:687-692 | a row's basis product is 0 at the abscissa of any other row it has multiplied in |
| Lagrange.SumAtNode | src/Marando/IERS/IERS.php:683-695 | at the abscissa of row `k`, the running sum over rows is row `k`'s value once row `k` is added, and 0 before |
| Lagrange.InterpolateAtNode | src/Marando/IERS/IERS.php:680-698 | with distinct abscissae, interpolating at a row's abscissa returns that row's value exactly |
| Lagrange.TwoRowSum | src/Marando/IERS/IERS.php:683-695 | over two rows of distinct abscissae the sum is each value times the other row's linear factor |
| Lagrange.TwoRowsReproduceLine | src/Marando/IERS/IERS.php:680-698 | exactness beyond the nodes for two rows: values on a line `a*x + b` (constants included) interpolate to `a*x + b` at every `x` |
| Lagrange.BasisLoop | src/Marando/IERS/IERS.php:685-692 | the inner loop succeeds exactly when no other row shares row `i`'s abscissa, and then yields row `i`'s full basis product |
| Lagrange.LagrangeInterp | src/Marando/IERS/IERS.php:680-698 | the nested loops, stopping at the first division by zero, compute the same outcome as the recursive definition |
| Instant.FromJd | src/Marando/IERS/IERS.php:95-98 | `IERS::jd` keeps the Julian Day, and its `mjd` property is that day less 2400000.5 |
| Instant.FromMjd | src/Marando/IERS/IERS.php:107-110 | `IERS::mjd` builds the instance whose `mjd` property reads back the argument |
| Instant.JdMjdRoundTrip | tests/src/Marando/IERS/IERSTest.php:31-42 | the two constructors are inverse views of one instant, with JD 2451545.5 as MJD 51545 |
| Calendar.Cal2jd | src/Marando/IERS/IERS.php:870-907 | status -1 exactly for a year before -4799; -2 exactly for a bad month; otherwise the MJD zero point is 2400000.5, and the day is flagged exactly when out of its month's length; status 0 exactly for a valid Gregorian date |
| Calendar.Cal2jdTerms | src/Marando/IERS/IERS.php:896-902 | the computed MJD splits into year terms of the March-based year, a month term, and the day |
| Calendar.MonthTermValues | src/Marando/IERS/IERS.php:900 | the month term of each month, 30 for March through 367 for February, is the count of days from 1 March |
| Calendar.MonthTermSteps | src/Marando/IERS/IERS.php:900 | from March to December, each month term exceeds the previous by the previous month's length |
| Calendar.JulianYearStep | src/Marando/IERS/IERS.php:899 | the four-year term grows by 366 in a March-based year that ends in a year divisible by 4, else by 365 |
| Calendar.CenturyStep | src/Marando/IERS/IERS.php:901 | the century correction removes one day at a century year not divisible by 400, and none otherwise |
| Calendar.YearTermsStep | src/Marando/IERS/IERS.php:890 | the year terms grow by 366 exactly into a Gregorian leap year's March, and by 365 otherwise, agreeing with the leap-year test |
| Calendar.NextDayInMonth | src/Marando/IERS/IERS.php:896-902 | the next day in the same month converts to the next MJD |
| Calendar.NextDayIntoMarch | src/Marando/IERS/IERS.php:896-902 | 1 March converts to the MJD after the last day of February, leap year or not |
| Calendar.NextDayIntoMonth | src/Marando/IERS/IERS.php:896-902 | the first of a month converts to the MJD after the last day of the month before, within one March-based year |
| Calendar.NextDayIntoJanuary | src/Marando/IERS/IERS.php:896-902 | 1 January converts to the MJD after 31 December |
| Calendar.Cal2jdCountsDays | src/Marando/IERS/IERS.php:870-907 | consecutive valid calendar days convert to consecutive MJDs |
| Calendar.Cal2jdEpochs | src/Marando/IERS/IERS.php:896-902 | 1858-11-17 is MJD 0 and 2000-01-01 is MJD 51544 |
| Calendar.SplitDay | src/Marando/IERS/IERS.php:825-841 | the day fraction lies in `[0, 1)`, and the Julian Day Number less one, plus the fraction, is the sum of the two parts less one half |
| Calendar.StageAgreesOnLeapCycle | src/Marando/IERS/IERS.php:848-852 | when the year within the century is a multiple of 4, the month stage as written agrees with SOFA's on year and month |
| Calendar.StageAsWrittenMonthInRange | src/Marando/IERS/IERS.php:848-851 | the class's month stage, with its untruncated day of the year, still gives a month from 1 to 12 |
| Calendar.GregorianOfAsWritten | src/Marando/IERS/IERS.php:844-853 | the class's conversion of a Julian Day Number always has a month from 1 to 12, and names SOFA's year and month whenever the year within the century is a multiple of 4; only the day can differ there |
| Calendar.CenturyAndYearBounds | src/Marando/IERS/IERS.php:844-847 | from the lowest accepted day on, the cycle count is non-negative, the day within the cycle is 0 to 36524, and the year within the century is 0 to 99; 36524 occurs only in a cycle divisible by 4 |
| Calendar.DayOfYearBounds | src/Marando/IERS/IERS.php:848 | SOFA's day of the March-based year runs from 31 to 396, reaching 396 only in the fourth year of a leap cycle |
| Calendar.MonthIndexTable | src/Marando/IERS/IERS.php:849-852 | each month index 1 to 12 names a month with the right year carry, and covers exactly that month's span of days |
| Calendar.MonthAndDay | src/Marando/IERS/IERS.php:849-852 | the month stage turns a day of the March-based year into a month and a day within that month's length, and the month term plus the day gives the day back |
| Calendar.LeapDayYear | src/Marando/IERS/IERS.php:853 | the year that holds the 396th day, 29 February, is a Gregorian leap year |
| Calendar.MonthStageIsDate | src/Marando/IERS/IERS.php:848-853 | the month stage yields a month 1 to 12 and a day within that month's length in its year |
| Calendar.StageIsDate | src/Marando/IERS/IERS.php:844-853 | the same, for the stage as a function of cycle, day and year |
| Calendar.GregorianOfIsDate | src/Marando/IERS/IERS.php:844-853 | SOFA's conversion gives a valid month and day for every accepted Julian Day Number |
| Calendar.YearTermsOfCentury | src/Marando/IERS/IERS.php:899-901 | `iauCal2jd`'s year terms for cycle `n` and year `i` equal the days `iauJd2cal` removes for that cycle and year |
| Calendar.DayCountOfStage | src/Marando/IERS/IERS.php:896-902 | the cycle, year, month and day terms add back up to the Julian Day Number |
| Calendar.ConvertsTo | src/Marando/IERS/IERS.php:896-902 | a valid date whose terms add up to an MJD converts to it with status 0 |
| Calendar.StageTerms | src/Marando/IERS/IERS.php:844-852 | the stage's month carries the year exactly in January and February, and its terms add up to the day it came from |
| Calendar.StageConverts | src/Marando/IERS/IERS.php:844-853 | the stage's date, stage by stage, converts back with status 0 to the day it came from |
| Calendar.StageInverts | src/Marando/IERS/IERS.php:844-853 | the stage's date converts back to the day it came from |
| Calendar.GregorianOfInvertsCal2jd | src/Marando/IERS/IERS.php:844-853 | `iauCal2jd` takes SOFA's date of any accepted Julian Day Number back to that day |
| Calendar.GregorianYearInRange | src/Marando/IERS/IERS.php:877 | from 1 January 4800 BC on, SOFA's year is one `iauCal2jd` accepts |
| Calendar.Jd2cal | src/Marando/IERS/IERS.php:802-857 | status -1 exactly outside `[-68569.5, 1e9]`; otherwise the fraction lies in `[0, 1)` and completes the day, and the date is a valid Gregorian date |
| Calendar.Jd2calAsWritten | src/Marando/IERS/IERS.php:802-857 | the class's version rejects exactly the same inputs, gives the same day fraction, and always a month from 1 to 12 |
| Calendar.SplitWholeMjd | src/Marando/IERS/IERS.php:825-841 | a whole MJD added to 2400000.5 splits into that day's Julian Day Number with fraction 0 |
| Calendar.Jd2calInvertsCal2jd | src/Marando/IERS/IERS.php:802-907 | round trip from the day: every whole MJD from 4800 BC to the upper limit converts to a valid date at midnight, and `iauCal2jd` takes that date back to the MJD |
| Calendar.MarchDayBounds | src/Marando/IERS/IERS.php:896-902 | a valid date's day term starts at 31 and stays within its March-based year's length |
| Calendar.YearTermsGrow | src/Marando/IERS/IERS.php:899-901 | the year terms rise by at least 365 a year, so they grow strictly with the year |
| Calendar.MonthIndexOfDay | src/Marando/IERS/IERS.php:849 | SOFA's month index recovered from a valid date's day term is 1 for March through 12 for February |
| Calendar.LaterYearLaterDay | src/Marando/IERS/IERS.php:896-902 | a valid date in a later March-based year has a larger day count |
| Calendar.MarchYearOfDay | src/Marando/IERS/IERS.php:896-902 | two valid dates converting to one day share their March-based year and their day term |
| Calendar.Cal2jdInjective | src/Marando/IERS/IERS.php:870-907 | `iauCal2jd` never sends two different valid dates to the same MJD |
| Calendar.Cal2jdLowerBound | src/Marando/IERS/IERS.php:877-902 | no valid date converts to an MJD before -2431739, 1 January 4800 BC |
| Calendar.Cal2jdThenJd2cal | src/Marando/IERS/IERS.php:802-907 | round trip from the calendar: SOFA's `iauJd2cal` of the MJD of any valid date up to the upper limit returns that date at midnight |
| Calendar.CenturyAndYearAt2000 | src/Marando/IERS/IERS.php:844-847 | the first stage on 2000-01-02 is cycle 68, day 36466, year 99; on 2000-03-01 it is cycle 69, day 0, year 0 |
| Calendar.StagesAtJanuary | src/Marando/IERS/IERS.php:848-853 | with year 99, SOFA's month stage gives 2000-01-02 but the stage as written gives 2000-01-01 |
| Calendar.StagesAtMarch | src/Marando/IERS/IERS.php:848-853 | at a cycle's first day, SOFA's month stage gives 2000-03-01 but the stage as written gives 2000-03-00 |
| Calendar.AsWrittenMisdatesJanuary | src/Marando/IERS/IERS.php:848 | Julian Day Number 2451546 is 2000-01-02 by SOFA, 2000-01-01 as written |
| Calendar.AsWrittenMisdatesMarch | src/Marando/IERS/IERS.php:850 | Julian Day Number 2451605 is 2000-03-01 by SOFA, 2000-03-00 as written |
| Calendar.GregorianOfIn877 | src/Marando/IERS/IERS.php:844-853 | Julian Day Number 2041715 is 877-12-03 by SOFA; the class, with `i` = 77, dates it 877-12-02 |
| Calendar.CenturyAndYearIn877 | src/Marando/IERS/IERS.php:844-847 | the first stage of Julian Day Number 2041715 is cycle 57, day 28401, year 77 |
| Calendar.CenturyAndYearIn1656 | src/Marando/IERS/IERS.php:844-847 | the first stage of Julian Day Number 2325902 is cycle 65, day 20394, year 55 |
| Calendar.AsWrittenMisdatesNewYear1656 | src/Marando/IERS/IERS.php:848-850 | Julian Day Number 2325902 is 1656-01-01 by SOFA and 1655-12-30 as written |
| Calendar.Cal2jdIn2000 | src/Marando/IERS/IERS.php:896-902 | 2000-01-02 is MJD 51545 and 2000-03-01 is MJD 51604 |
| Calendar.Jd2calAt51545 | src/Marando/IERS/IERS.php:802-857 | MJD 51545 is 2000-01-02 by SOFA, 2000-01-01 as written |
| Calendar.Jd2calAt51604 | src/Marando/IERS/IERS.php:802-857 | MJD 51604 is 2000-03-01 by SOFA, 2000-03-00 as written |
| Calendar.Jd2calAsWrittenMisdates | src/Marando/IERS/IERS.php:848-850 | both discrepancies at once, against `iauCal2jd`'s own dates for the two days |
| Calendar.AsWrittenBreaksRoundTrip | src/Marando/IERS/IERS.php:848-850 | the class's date for MJD 51545 converts back to 51544, and its date for MJD 51604 is invalid (status -3) and converts to 51603 |
| Finals.Centre | src/Marando/IERS/IERS.php:170-175 | the pointer is the query's offset from the first record less one, keeping its fraction, moved to `INTERP_C` strictly inside `(-INTERP_C, INTERP_C)`; for any query not before the first record it is at least `INTERP_C` |
| Finals.FirstMjd | src/Marando/IERS/IERS.php:162 | the first record's MJD is the integer cast of columns 8 to 15 of line 0, or of the empty string for an empty file |
| Finals.Field | src/Marando/IERS/IERS.php:189-194 | the chosen field is at most nine characters: the final value when it trims to truthy text, otherwise the predicted value |
| Finals.FinalZeroFallsBack | src/Marando/IERS/IERS.php:194 | a final value that trims to `0` gives way to the predicted value, and any other non-blank final value is used as it stands |
| Finals.Row | src/Marando/IERS/IERS.php:189-203 | a line gives no row exactly when its chosen field is blank; otherwise the row is the MJD field and the chosen value, cast |
| Finals.Rows | src/Marando/IERS/IERS.php:184-204 | a window gives a dataset exactly when every line has a row; it then has one row per line, in order |
| Finals.Query | src/Marando/IERS/IERS.php:155-318 | `dut1`, `x`, `y` return false exactly before the first record or when a window line has no value (unless `dut1` is past the end); they throw exactly when `dut1` passes the last line or the window holds two records of one MJD; any value is the interpolation over the window at the query's MJD |
| Finals.WindowShape | src/Marando/IERS/IERS.php:184-204 | for a query not before the first record, no line read is negative, and the dataset holds ten rows, row `k` read from the `k`-th line of the window |
| Finals.EmptyLineHasNoRow | src/Marando/IERS/IERS.php:196-199 | a line beyond the file yields no value for any quantity |
| Finals.PastEndOnlyDut1Throws | src/Marando/IERS/IERS.php:177-180 | past the last line `dut1` throws while `x` and `y` return false |
| Finals.PolesThrowOnlyOnRepeatedMjd | src/Marando/IERS/IERS.php:215-318 | `x` and `y` throw exactly when the query is not before the first record and its window holds two records of one MJD |
| Finals.QueryAtRecord | src/Marando/IERS/IERS.php:194-207 | at the MJD of a record in the window, with distinct MJDs, the query returns that record's chosen value exactly |
| DeltaT.PathOf | src/Marando/IERS/IERS.php:325-339 | historic exactly before 1973-02-01, predicted exactly past the monthly table's last day, the monthly table otherwise |
| DeltaT.PathsInOrder | src/Marando/IERS/IERS.php:328-333 | the three paths follow each other in time, and the boundary instant goes to the monthly table whenever that table reaches it |
| DeltaT.QueryYearMonth | src/Marando/IERS/IERS.php:432 | the year and month `iauJd2cal` gives the query (also at lines 486 and 542): (0, 0) out of range; a month from 1 to 12 under either dating; SOFA's year and month for `Corrected`, and for `AsWritten` too whenever the year within the century is a multiple of 4 |
| DeltaT.HistoricPointer | src/Marando/IERS/IERS.php:439 | two lines a year from 1656: the pointer is negative exactly before 1656, and it is even and names its year back |
| DeltaT.BasePointer | src/Marando/IERS/IERS.php:489 | one line a month from February 1973: for a real month the pointer is negative exactly before February 1973, and it names its year and month back |
| DeltaT.HistoricRow | src/Marando/IERS/IERS.php:462-467 | a historic row is dated the first of January for a whole year and of June otherwise, in the year that truncates the year field; once the year is in the calendar's range that date is valid; its value is columns 14 to 19 |
| DeltaT.BaseRow | src/Marando/IERS/IERS.php:516-522 | a monthly row takes year, month and day from columns 2 to 5, 7 to 8 and 10 to 11, and ΔT from columns 14 to 20 |
| DeltaT.Dataset | src/Marando/IERS/IERS.php:467-470 | one sample per row, with the row's ΔT; the abscissa is the row's Julian Day when `iauCal2jd` accepts year and month, else the previous row's abscissa carried by the unassigned out-parameters |
| DeltaT.Clamp | src/Marando/IERS/IERS.php:444-452 | a pointer already in range is kept; below range it moves to `INTERP_C`, above range to `maxLine - INTERP_C`; in a table of at least `2 * INTERP_C + 1` lines the result is in range |
| DeltaT.ClampedWindow | src/Marando/IERS/IERS.php:455-459 | the window fails (a negative seek) exactly when the clamped pointer is below `INTERP_C`; in a table of more than ten lines it succeeds and reads consecutive lines, none of them the last |
| DeltaT.HistoricMonth | src/Marando/IERS/IERS.php:466 | a historic row is dated January exactly when its year is whole, and June otherwise |
| DeltaT.WindowOutcome | src/Marando/IERS/IERS.php:454-475 | a window never returns false, and throws exactly on a negative seek or on two rows of one Julian Day |
| DeltaT.WindowOutcomeAtRow | src/Marando/IERS/IERS.php:454-475 | at the Julian Day of a row of a window with distinct days, the result is that row's ΔT |
| DeltaT.HistoricDeltaT | src/Marando/IERS/IERS.php:429-476 | the historic path returns false exactly for a query year before 1656, the year coming from the chosen dating |
| DeltaT.BaseDeltaT | src/Marando/IERS/IERS.php:483-531 | the monthly path returns false exactly for a query month before February 1973 under either dating (the month is always 1..12), and for a date `iauJd2cal` rejects |
| DeltaT.RawPredictPointerStep | src/Marando/IERS/IERS.php:549-552 | the prediction pointer advances four lines a year, and for a whole first-prediction year it is four lines a year from that year, less two |
| DeltaT.PredictCentre | src/Marando/IERS/IERS.php:553-569 | false exactly for a negative pointer; an exception exactly when the reset pointer passes `maxLine - INTERP_C`; a surviving centre is the reset pointer itself, above `INTERP_C` with its window inside the file, so the upper reset that follows never moves it |
| DeltaT.QuarterMonth | src/Marando/IERS/IERS.php:583-592 | a fraction of 0 is January; up to a quarter, a half and three quarters give the month ending that quarter; above three quarters no month is assigned |
| DeltaT.QuarterMonthMonotone | src/Marando/IERS/IERS.php:583-592 | a later fraction of the year never maps to an earlier month |
| DeltaT.PredictRows | src/Marando/IERS/IERS.php:573-600 | one row per line, dated the first of the month of its year's fraction; an unassigned month carries over from the row before, or from the query's month for the first row |
| DeltaT.PredictDeltaT | src/Marando/IERS/IERS.php:539-604 | the prediction path returns false exactly for a negative pointer, and throws exactly when the reset pointer passes the end or the window holds two rows of one Julian Day |
| DeltaT.PredictWindowInside | src/Marando/IERS/IERS.php:571-576 | every line a surviving prediction window reads lies in the file, below its last line |
| DeltaT.DeltaTBeforeHistoricTable | tests/src/Marando/IERS/IERSTest.php:115 | Julian Day 2041714.5 (3 December 877) gets false from `deltaT` under either dating, whatever the tables hold |
| DeltaT.DatingsAgreeOnLeapCycle | src/Marando/IERS/IERS.php:325-339 | when the year within the century of the query's day is a multiple of 4, `deltaT` is the same under the class's dating and SOFA's |
| DeltaT.HistoricTableMissesNewYear1656 | src/Marando/IERS/IERS.php:432-441 | Julian Day 2325901.5 is 1656-01-01, the historic table's first year; as written `deltaT` returns false there, while SOFA's dating does not |
| LeapSeconds.StopIndex | src/Marando/IERS/IERS.php:352-366 | the scan consumes lines up to the first one that is blank or lies strictly after the query |
| LeapSeconds.TableEnd | src/Marando/IERS/IERS.php:355-358 | the table proper ends at the first blank line |
| LeapSeconds.LeapSec | src/Marando/IERS/IERS.php:346-374 | in a table ascending by Julian Day, `leapSec` is the offset of the last entry of the table proper at or before the query, ties included, and 0 when none is yet in effect |
| LeapSeconds.LeapSecScan | src/Marando/IERS/IERS.php:351-370 | the loop, line by line, computes the same value |
| LeapSeconds.StopIndexCountsEntriesInEffect | src/Marando/IERS/IERS.php:352-366 | in a table ascending by Julian Day, the scan consumes exactly the entries at or before the query |
| LeapSeconds.StopsAfterLastInEffect | src/Marando/IERS/IERS.php:352-366 | in an ascending table the scan stops right after the last entry in effect, and at once when none is |
| LeapSeconds.LeapSecIsLastEntryInEffect | src/Marando/IERS/IERS.php:346-374 | in an ascending table, the result is the offset of the last entry at or before the query |
| LeapSeconds.BeforeTableIsZero | src/Marando/IERS/IERS.php:351-366 | a query before the first entry gets 0 |
| LeapSeconds.EntryAppliesOnItsDay | src/Marando/IERS/IERS.php:363-366 | on the very Julian Day an entry takes effect, its offset already applies |
| LeapSeconds.StepBetweenEntries | src/Marando/IERS/IERS.php:352-366 | two queries with no entry of the table proper taking effect in between, the later one included, stop the scan at the same line |
| LeapSeconds.LeapSecConstantBetweenEntries | src/Marando/IERS/IERS.php:346-374 | `leapSec` is constant between entries: a step function |

## Left out

- Downloading and storing the data files is not modelled. This covers
  `update`, `performUpdate`, `ftp`, `filesExist`, `hoursSinceUpdate`,
  `log`, `setUpdatedNow`, `storage` and `initDefaultData`. It is all
  network and file-system I/O.
- `IERS::now` is not modelled: it reads the system clock.
- `deltaT_lastJD` is a parameter of `DeltaT.DeltaTAt`, not a modelled
  operation. It scans the end of a file backwards with `SplFileObject`, and
  its result only selects the path.
- `SplFileObject` behaviour is reduced to two cases. A seek past the end
  reads an empty line. A seek to a negative line throws. Behaviour that
  differs between PHP versions is not modelled.
- Decimal parsing and IEEE-754 rounding are not modelled. The casts come
  in as `Numeric`, and arithmetic is exact over `real`.
- Calendar.Jd2calInvertsCal2jd: the round trip is stated up to MJD
  997599999, the last whole day below the routine's upper limit of
  Julian Day 1e9.
- Calendar.Cal2jdThenJd2cal: stated for dates up to that same MJD, for
  the same reason.
- Calendar.Jd2calAsWritten: its date is stated only through the
  discrepancy lemmas, the leap-cycle agreement and the month range. PHP's float arithmetic
  on the fractional day of the year is taken as exact.
- Lagrange.Interpolate: exactness for polynomials of degree below the
  number of rows is proved for two rows only (`Lagrange.TwoRowsReproduceLine`).
  The general case needs the uniqueness of the interpolating polynomial,
  which the model does not develop; node exactness is proved for every
  table.
- DeltaT.BaseRow: states only which columns hold which field; what the
  casts make of them is the `Numeric` parameter.
- ΔT tables keyed by a float are not modelled. PHP would truncate such a
  key. The `$ds` keys `$i - $p + INTERP_C` are taken to be the row
  positions 0 to 9, as an integer pointer makes them.
- The benchmark in the tests and `tests/GenericTest.php` are not modelled.
  They check no behaviour of the engine.

## Findings

| source | as written | input that shows it | evidently intended | confidence | as-written member | corrected member |
|---|---|---|---|---|---|---|
| src/Marando/IERS/IERS.php:848-850 | `iauJd2cal` subtracts `(1461*$i)/4` without `intval`, so the day of the March-based year keeps a fraction of .25, .5 or .75. It then recovers the day with `round` where SOFA truncates | MJD 51545 (2000-01-02) gives 2000-01-01. MJD 51604 (2000-03-01) gives 2000-03-00, a day `iauCal2jd` flags with status -3 | SOFA's integer arithmetic, under which `iauJd2cal` inverts `iauCal2jd` for every valid date | not executed | Calendar.AsWrittenBreaksRoundTrip | Calendar.Cal2jdThenJd2cal |

`deltaT` dates its query with the class's version, so the ΔT paths inherit
the discrepancy: `DeltaT.HistoricTableMissesNewYear1656` shows the program
returning false on 1656-01-01, the historic table's first day, where
SOFA's dating finds the table. The model runs every ΔT path under both
datings (`DeltaT.Dating`), and `DeltaT.DatingsAgreeOnLeapCycle` proves the
two agree wherever the year within the century is a multiple of 4.
