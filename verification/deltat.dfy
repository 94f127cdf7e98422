/** ΔT (TT - UT1) from three tables: yearly and half-yearly historic
    values before 1973, monthly values since, and quarterly predictions past
    the end of the monthly table. Each path turns the query date into a line
    pointer, clamps it, reads the ten lines around it as dated rows and
    interpolates over their Julian Days. */
module DeltaT {
  import opened Php
  import opened Calendar
  import opened Lagrange
  import opened Instant
  import opened Bulletin

  /** Julian Day of 1973-02-01: earlier queries use the historic table. */
  const HISTORIC_END: real := 2441714.5

  // ---------------------------------------------------------------------
  // Dispatch
  // ---------------------------------------------------------------------

  /** The table a ΔT query reads. */
  datatype Path = Historic | Predicted | Current

  /** `deltaT()`: historic below 1973-02-01, else predicted past the last
      Julian Day of the monthly table, else the monthly table. */
  function PathOf(jd: real, lastJd: real): (r: Path)
    ensures r == Historic <==> jd < HISTORIC_END
    ensures r == Predicted <==> jd >= HISTORIC_END && jd > lastJd
    ensures r == Current <==> HISTORIC_END <= jd <= lastJd
  {
    if jd < HISTORIC_END then Historic
    else if jd > lastJd then Predicted
    else Current
  }

  /** The boundary instant belongs to the monthly table whenever that table
      reaches it, and the paths are ordered along the time line. */
  lemma PathsInOrder(jd1: real, jd2: real, lastJd: real)
    requires jd1 <= jd2
    ensures PathOf(jd2, lastJd) == Historic ==> PathOf(jd1, lastJd) == Historic
    ensures PathOf(jd1, lastJd) == Predicted ==> PathOf(jd2, lastJd) == Predicted
    ensures lastJd >= HISTORIC_END ==> PathOf(HISTORIC_END, lastJd) == Current
  {
  }

  // ---------------------------------------------------------------------
  // Dated rows
  // ---------------------------------------------------------------------

  /** A calendar date as the tables spell it, and the ΔT read beside it. */
  datatype DatedValue = DatedValue(y: int, m: int, d: int, value: real)

  /** The abscissa of a dated row: `djm0 + djm` when `iauCal2jd` accepts
      the year and month (a bad day still converts), else whatever the two
      out-parameters held from the previous row. */
  function RowJd(row: DatedValue, prevX: real): real {
    match Cal2jd(row.y, row.m, row.d)
    case Converted(_, djm0, djm) => djm0 + djm as real
    case _ => prevX
  }

  /** The dataset of a window of dated rows, in order. `prevX` is the value
      the out-parameters carry into the first row: on the first row they
      are unassigned, and `null + null` is 0. */
  function Dataset(rows: seq<DatedValue>, prevX: real): (ds: seq<Sample>)
    ensures |ds| == |rows|
    ensures forall k :: 0 <= k < |rows| ==> ds[k].y == rows[k].value
    ensures forall k :: 0 <= k < |rows| && Cal2jd(rows[k].y, rows[k].m, rows[k].d).Converted? ==>
              ds[k].x == DJM0 + Cal2jd(rows[k].y, rows[k].m, rows[k].d).djm as real
    ensures |rows| > 0 && !Cal2jd(rows[0].y, rows[0].m, rows[0].d).Converted? ==> ds[0].x == prevX
    ensures forall k :: 0 < k < |rows| && !Cal2jd(rows[k].y, rows[k].m, rows[k].d).Converted? ==>
              ds[k].x == ds[k - 1].x
  {
    if rows == [] then []
    else
      var x := RowJd(rows[0], prevX);
      var rest := Dataset(rows[1..], x);
      assert forall k :: 0 < k < |rows| ==> rows[k] == rows[1..][k - 1];
      [Sample(x, rows[0].value)] + rest
  }

  /** Which `iauJd2cal` dates the query: the class's own routine as
      written, which is what `deltaT` calls, or SOFA's integer routine. */
  datatype Dating = AsWritten | Corrected

  /** The query's calendar year and month from `iauJd2cal(2400000.5, mjd)`;
      out of range, the out-parameters stay `null`, which counts as 0. The
      month is January to December under either dating; the two datings
      name the same year and month whenever the year within the century is
      a multiple of 4, and then it is the query's own Gregorian month. */
  function QueryYearMonth(t: Iers, dating: Dating): (ym: (int, int))
    ensures Jd2cal(DJM0, t.Mjd()).OutOfRange? ==> ym == (0, 0)
    ensures Jd2cal(DJM0, t.Mjd()).Date? ==> 1 <= ym.1 <= 12
    ensures Jd2cal(DJM0, t.Mjd()).Date?
            && (dating == Corrected || CenturyAndYear(SplitDay(DJM0, t.Mjd()).0).2 % 4 == 0) ==>
              ym == (Jd2cal(DJM0, t.Mjd()).iy, Jd2cal(DJM0, t.Mjd()).im) && 1 <= ym.1 <= 12
  {
    var date := match dating
                case AsWritten => Jd2calAsWritten(DJM0, t.Mjd())
                case Corrected => Jd2cal(DJM0, t.Mjd());
    match date
    case Date(iy, im, _, _) => (iy, im)
    case OutOfRange => (0, 0)
  }

  // ---------------------------------------------------------------------
  // Historic and monthly tables: integer pointers
  // ---------------------------------------------------------------------

  /** The lower then upper pointer reset of `deltaT_historic` and
      `deltaT_base`, against the table's last line index `mLine`. */
  function Clamp(p: int, mLine: int): (c: int)
    ensures mLine >= 2 * INTERP_C ==> INTERP_C <= c <= mLine - INTERP_C
    ensures INTERP_C <= p <= mLine - INTERP_C ==> c == p
    ensures p < INTERP_C && mLine >= 2 * INTERP_C ==> c == INTERP_C
    ensures p + INTERP_C > mLine ==> c == mLine - INTERP_C
  {
    var lower := if p < INTERP_C then INTERP_C else p;
    if lower + INTERP_C > mLine then mLine - INTERP_C else lower
  }

  /** The ten lines read around a clamped pointer, or nothing when the
      first `seek` goes to a negative line, which throws. In a table of more
      than `2 * INTERP_C` lines every line read is one of the table's, and
      never its last. */
  function ClampedWindow(p: int, lines: seq<string>): (w: Option<seq<string>>)
    ensures w.None? <==> Clamp(p, MaxLine(lines)) < INTERP_C
    ensures w.Some? ==> |w.value| == 2 * INTERP_C
    ensures |lines| > 2 * INTERP_C ==> w.Some?
    ensures |lines| > 2 * INTERP_C ==>
              var c := Clamp(p, MaxLine(lines));
              forall k :: 0 <= k < 2 * INTERP_C ==>
                0 <= c - INTERP_C + k < MaxLine(lines) && w.value[k] == lines[c - INTERP_C + k]
  {
    var c := Clamp(p, MaxLine(lines));
    if c < INTERP_C then None
    else
      var ws := WindowLines(lines, c as real);
      Some(ws)
  }

  /** A historic row: the year field of columns 1 to 8, integral or half a
      year on, dated to 1 January for a whole year and to 1 June otherwise,
      and the ΔT of columns 14 to 19. A year of the calendar's range gives a
      valid date. */
  function HistoricRow(line: string, num: Numeric): (r: DatedValue)
    ensures var y := num.toReal(Substr(line, 0, 8));
            (y >= 0.0 ==> r.y as real <= y < r.y as real + 1.0)
            && (y < 0.0 ==> r.y as real - 1.0 < y <= r.y as real)
            && (r.m == 1 <==> y == y.Floor as real)
    ensures r.d == 1 && (r.m == 1 || r.m == 6)
    ensures r.y >= -4799 ==> ValidDate(r.y, r.m, r.d)
    ensures r.value == num.toReal(Substr(line, 13, 6))
  {
    var y := num.toReal(Substr(line, 0, 8));
    DatedValue(TruncReal(y), HistoricMonth(y), 1, num.toReal(Substr(line, 13, 6)))
  }

  /** January for a whole year, June for anything else. */
  function HistoricMonth(y: real): (m: int)
    ensures m == 1 <==> y == y.Floor as real
    ensures m == 1 || m == 6
  {
    TruncIsWhole(y);
    if TruncReal(y) as real == y then 1 else 6
  }

  /** A row of the monthly table: year, month and day from columns 2 to 5,
      7 to 8 and 10 to 11, and the ΔT from columns 14 to 20. */
  function BaseRow(line: string, num: Numeric): (r: DatedValue)
    ensures r.y == num.toInt(Substr(line, 1, 4)) && r.m == num.toInt(Substr(line, 6, 2))
    ensures r.d == num.toInt(Substr(line, 9, 2)) && r.value == num.toReal(Substr(line, 13, 7))
  {
    DatedValue(num.toInt(Substr(line, 1, 4)), num.toInt(Substr(line, 6, 2)),
               num.toInt(Substr(line, 9, 2)), num.toReal(Substr(line, 13, 7)))
  }

  /** The line pointer of the historic table: two lines a year from 1656,
      so the pointer is negative exactly for a year before 1656, and an even
      pointer names its year back. */
  function HistoricPointer(y: int): (p: int)
    ensures p < 0 <==> y < 1656
    ensures p % 2 == 0 && 1656 + p / 2 == y
  {
    (y - 1657) * 2 + 2
  }

  /** The line pointer of the monthly table: one line a month from
      February 1973. For a real month the pointer is negative exactly
      before February 1973, and it names its year and month back. */
  function BasePointer(y: int, m: int): (p: int)
    ensures 1 <= m <= 12 ==> (p < 0 <==> y < 1973 || (y == 1973 && m < 2))
    ensures 1 <= m <= 12 ==> 1973 + (p + 1) / 12 == y && (p + 1) % 12 + 1 == m
  {
    (y - 1973) * 12 + m - 2
  }

  /** The dated rows read from a window of lines, one per line, in order. */
  function ReadRows(ws: seq<string>, row: string -> DatedValue): (rows: seq<DatedValue>)
    ensures |rows| == |ws|
  {
    seq(|ws|, k requires 0 <= k < |ws| => row(ws[k]))
  }

  /** Interpolation over a clamped window of rows, once the pointer is
      known to be non-negative: a negative first line throws, and so do two
      rows of one Julian Day; nothing else fails. */
  function WindowOutcome(jd: real, p: int, lines: seq<string>, row: string -> DatedValue): (r: Outcome)
    requires p >= 0
    ensures !r.False?
    ensures r.Throws? <==> ClampedWindow(p, lines).None?
                           || !DistinctNodes(Dataset(ReadRows(ClampedWindow(p, lines).value, row), 0.0))
  {
    match ClampedWindow(p, lines)
    case None => Throws
    case Some(ws) => Interpolate(jd, Dataset(ReadRows(ws, row), 0.0))
  }

  /** At the Julian Day of one of its rows, a window with distinct days
      returns that row's ΔT. */
  lemma WindowOutcomeAtRow(jd: real, p: int, lines: seq<string>, row: string -> DatedValue, k: nat)
    requires p >= 0 && ClampedWindow(p, lines).Some?
    requires var ds := Dataset(ReadRows(ClampedWindow(p, lines).value, row), 0.0);
             DistinctNodes(ds) && k < |ds| && ds[k].x == jd
    ensures WindowOutcome(jd, p, lines, row)
            == Value(ReadRows(ClampedWindow(p, lines).value, row)[k].value)
  {
    var ds := Dataset(ReadRows(ClampedWindow(p, lines).value, row), 0.0);
    InterpolateAtNode(ds, k);
  }

  /** `deltaT_historic()`. */
  function HistoricDeltaT(t: Iers, lines: seq<string>, num: Numeric, dating: Dating): (r: Outcome)
    ensures r == False <==> QueryYearMonth(t, dating).0 < 1656
  {
    var p := HistoricPointer(QueryYearMonth(t, dating).0);
    if p < 0 then False
    else WindowOutcome(t.jd, p, lines, line => HistoricRow(line, num))
  }

  /** `deltaT_base()`: false exactly for a query the chosen dating puts
      before February 1973, the first month of the table, and for a query
      `iauJd2cal` rejects. */
  function BaseDeltaT(t: Iers, lines: seq<string>, num: Numeric, dating: Dating): (r: Outcome)
    ensures r == False <==> BasePointer(QueryYearMonth(t, dating).0, QueryYearMonth(t, dating).1) < 0
    ensures Jd2cal(DJM0, t.Mjd()).Date? ==>
              (r == False <==> QueryYearMonth(t, dating).0 < 1973
                               || (QueryYearMonth(t, dating).0 == 1973 && QueryYearMonth(t, dating).1 < 2))
    ensures Jd2cal(DJM0, t.Mjd()).OutOfRange? ==> r == False
  {
    var (y, m) := QueryYearMonth(t, dating);
    var p := BasePointer(y, m);
    if p < 0 then False
    else WindowOutcome(t.jd, p, lines, line => BaseRow(line, num))
  }
  // ---------------------------------------------------------------------
  // Predictions: a real pointer
  // ---------------------------------------------------------------------

  /** `deltaT_predict`'s pointer before any reset, from the query year `y`
      and the fractional year `fyear` of line 4, the first prediction: four
      lines a year, plus four times the fraction `fyear` carries, less two. */
  function RawPredictPointer(y: int, fyear: real): real {
    var whole := TruncReal(fyear);
    ((y - whole) * 4) as real + (fyear - whole as real) * 4.0 - 2.0
  }

  /** Four lines a year. */
  lemma RawPredictPointerStep(y: int, fyear: real)
    ensures RawPredictPointer(y + 1, fyear) == RawPredictPointer(y, fyear) + 4.0
    ensures fyear == fyear.Floor as real && fyear >= 0.0 ==>
              RawPredictPointer(y, fyear) == ((y - fyear.Floor) * 4 - 2) as real
  {
  }

  /** Where `deltaT_predict` centres its window. */
  datatype PredictPointer = Unavailable | Exhausted | CentredAt(p: real)

  /** The pointer checks of `deltaT_predict`: a negative pointer gives
      false; one up to `INTERP_C` moves to `INTERP_C + 3`; one past
      `maxLine - INTERP_C` throws. A centre that survives leaves room for
      the window below the last line, so the upper reset that follows never
      fires. */
  function PredictCentre(raw: real, maxLine: int): (r: PredictPointer)
    ensures r == Unavailable <==> raw < 0.0
    ensures r == Exhausted <==>
              raw >= 0.0 && (if raw <= INTERP_C as real then (INTERP_C + 3) as real else raw)
                            > (maxLine - INTERP_C) as real
    ensures r.CentredAt? ==> INTERP_C as real < r.p && r.p + INTERP_C as real <= maxLine as real
    ensures r.CentredAt? ==> r.p == if raw <= INTERP_C as real then (INTERP_C + 3) as real else raw
  {
    if raw < 0.0 then Unavailable
    else
      var p := if raw <= INTERP_C as real then (INTERP_C + 3) as real else raw;
      if p > (maxLine - INTERP_C) as real then Exhausted
      else
        var q := if p + INTERP_C as real > maxLine as real then (maxLine - INTERP_C) as real else p;
        CentredAt(q)
  }

  /** The month of a prediction from its year's fraction: 0 is January,
      up to a quarter March, up to a half June, up to three quarters
      September; above that no branch assigns the month. */
  function QuarterMonth(frac: real): (m: Option<int>)
    ensures m.None? <==> frac > 0.75
    ensures frac == 0.0 ==> m == Some(1)
    ensures frac < 0.0 ==> m == Some(3)
    ensures 0.0 < frac <= 0.75 ==>
              m.Some? && m.value % 3 == 0
              && (m.value / 3 - 1) as real < 4.0 * frac <= (m.value / 3) as real
  {
    if frac == 0.0 then Some(1)
    else if frac <= 0.25 then Some(3)
    else if frac <= 0.5 then Some(6)
    else if frac <= 0.75 then Some(9)
    else None
  }

  /** A later fraction never maps to an earlier month. */
  lemma QuarterMonthMonotone(f1: real, f2: real)
    requires 0.0 <= f1 <= f2
    requires QuarterMonth(f2).Some?
    ensures QuarterMonth(f1).Some? && QuarterMonth(f1).value <= QuarterMonth(f2).value
  {
  }

  /** The year field of a prediction line. */
  function PredictYear(line: string, num: Numeric): real {
    num.toReal(Substr(line, 1, 7))
  }

  /** The rows of a prediction window. The month of a row whose fraction
      exceeds three quarters is the month left by the row before; before
      the first row that is the query's month from `iauJd2cal`. */
  function PredictRows(ws: seq<string>, num: Numeric, prevMonth: int): (rows: seq<DatedValue>)
    ensures |rows| == |ws|
    ensures forall k :: 0 <= k < |ws| ==>
              var y := PredictYear(ws[k], num);
              rows[k].y == TruncReal(y) && rows[k].d == 1
              && rows[k].value == num.toReal(Substr(ws[k], 14, 6))
              && (QuarterMonth(y - TruncReal(y) as real).Some? ==>
                    rows[k].m == QuarterMonth(y - TruncReal(y) as real).value)
    ensures |ws| > 0 && QuarterMonth(PredictYear(ws[0], num) - TruncReal(PredictYear(ws[0], num)) as real).None?
            ==> rows[0].m == prevMonth
    ensures forall k :: 0 < k < |ws| &&
              QuarterMonth(PredictYear(ws[k], num) - TruncReal(PredictYear(ws[k], num)) as real).None?
              ==> rows[k].m == rows[k - 1].m
  {
    if ws == [] then []
    else
      var y := PredictYear(ws[0], num);
      var m := match QuarterMonth(y - TruncReal(y) as real)
               case Some(q) => q
               case None => prevMonth;
      var rest := PredictRows(ws[1..], num, m);
      assert forall k :: 0 < k < |ws| ==> ws[k] == ws[1..][k - 1];
      [DatedValue(TruncReal(y), m, 1, num.toReal(Substr(ws[0], 14, 6)))] + rest
  }

  /** `deltaT_predict()`. */
  function PredictDeltaT(t: Iers, lines: seq<string>, num: Numeric, dating: Dating): (r: Outcome)
    ensures var raw := RawPredictPointer(QueryYearMonth(t, dating).0, PredictYear(Line(lines, 4), num));
            (r == False <==> raw < 0.0)
            && (r.Throws? <==> PredictCentre(raw, MaxLine(lines)).Exhausted?
                                || (PredictCentre(raw, MaxLine(lines)).CentredAt?
                                    && !DistinctNodes(Dataset(PredictRows(
                                         WindowLines(lines, PredictCentre(raw, MaxLine(lines)).p),
                                         num, QueryYearMonth(t, dating).1), 0.0))))
  {
    var (y, m) := QueryYearMonth(t, dating);
    var raw := RawPredictPointer(y, PredictYear(Line(lines, 4), num));
    match PredictCentre(raw, MaxLine(lines))
    case Unavailable => False
    case Exhausted => Throws
    case CentredAt(p) => Interpolate(t.jd, Dataset(PredictRows(WindowLines(lines, p), num, m), 0.0))
  }

  /** Every line a prediction window reads lies in the file, below its
      last line. */
  lemma PredictWindowInside(raw: real, lines: seq<string>, k: int)
    requires PredictCentre(raw, MaxLine(lines)).CentredAt?
    requires 0 <= k < 2 * INTERP_C
    ensures var p := PredictCentre(raw, MaxLine(lines)).p;
            0 <= WindowLine(p, k) < MaxLine(lines)
            && WindowLines(lines, p)[k] == lines[WindowLine(p, k)]
  {
    WindowInside(lines, PredictCentre(raw, MaxLine(lines)).p, k);
  }

  // ---------------------------------------------------------------------
  // deltaT()
  // ---------------------------------------------------------------------

  /** The three ΔT tables. */
  datatype Tables = Tables(historic: seq<string>, base: seq<string>, preds: seq<string>)

  /** `deltaT()`, with the last Julian Day of the monthly table given;
      the program is `DeltaTAt(.., AsWritten)`. */
  function DeltaTAt(t: Iers, lastJd: real, files: Tables, num: Numeric, dating: Dating): (r: Outcome)
    ensures PathOf(t.jd, lastJd) == Historic ==> r == HistoricDeltaT(t, files.historic, num, dating)
    ensures PathOf(t.jd, lastJd) == Predicted ==> r == PredictDeltaT(t, files.preds, num, dating)
    ensures PathOf(t.jd, lastJd) == Current ==> r == BaseDeltaT(t, files.base, num, dating)
  {
    match PathOf(t.jd, lastJd)
    case Historic => HistoricDeltaT(t, files.historic, num, dating)
    case Predicted => PredictDeltaT(t, files.preds, num, dating)
    case Current => BaseDeltaT(t, files.base, num, dating)
  }

  /** Where the year within the century of the query's day is a multiple
      of 4, the class's dating and SOFA's give the same ΔT. */
  lemma DatingsAgreeOnLeapCycle(t: Iers, lastJd: real, files: Tables, num: Numeric)
    requires CenturyAndYear(SplitDay(DJM0, t.Mjd()).0).2 % 4 == 0
    ensures DeltaTAt(t, lastJd, files, num, AsWritten) == DeltaTAt(t, lastJd, files, num, Corrected)
  {
    assert QueryYearMonth(t, AsWritten) == QueryYearMonth(t, Corrected) by {
      if Jd2cal(DJM0, t.Mjd()).Date? {
        assert QueryYearMonth(t, AsWritten) == (Jd2cal(DJM0, t.Mjd()).iy, Jd2cal(DJM0, t.Mjd()).im);
      } else {
        assert QueryYearMonth(t, AsWritten) == (0, 0);
      }
    }
    match PathOf(t.jd, lastJd)
    case Historic =>
      assert HistoricDeltaT(t, files.historic, num, AsWritten) == HistoricDeltaT(t, files.historic, num, Corrected);
    case Current =>
      assert BaseDeltaT(t, files.base, num, AsWritten) == BaseDeltaT(t, files.base, num, Corrected);
    case Predicted =>
      assert PredictDeltaT(t, files.preds, num, AsWritten) == PredictDeltaT(t, files.preds, num, Corrected);
  }

  /** A query in 877 (Julian Day 2041714.5, 3 December 877) predates the
      historic table: `deltaT()` returns false whatever the tables hold; the
      class dates it 2 December 877, which changes nothing. */
  lemma DeltaTBeforeHistoricTable(lastJd: real, files: Tables, num: Numeric, dating: Dating)
    ensures DeltaTAt(FromJd(2041714.5), lastJd, files, num, dating) == False
  {
    var t := FromJd(2041714.5);
    assert t.Mjd() == -358286.0;
    SplitWholeMjd(-358286);
    GregorianOfIn877();
    assert QueryYearMonth(t, dating).0 == 877;
    assert PathOf(t.jd, lastJd) == Historic;
  }

  /** New Year's Day 1656 (Julian Day 2325901.5) is the first row of the
      historic table, so SOFA's dating finds it in the table. The class
      dates it 30 December 1655, one year before the table starts, and
      `deltaT()` returns false there. */
  lemma HistoricTableMissesNewYear1656(lastJd: real, files: Tables, num: Numeric)
    ensures Jd2cal(DJM0, FromJd(2325901.5).Mjd()) == Date(1656, 1, 1, 0.0)
    ensures DeltaTAt(FromJd(2325901.5), lastJd, files, num, AsWritten) == False
    ensures DeltaTAt(FromJd(2325901.5), lastJd, files, num, Corrected) != False
  {
    var t := FromJd(2325901.5);
    assert t.Mjd() == -74099.0;
    SplitWholeMjd(-74099);
    AsWrittenMisdatesNewYear1656();
    assert QueryYearMonth(t, AsWritten).0 == 1655;
    assert QueryYearMonth(t, Corrected).0 == 1656;
    assert PathOf(t.jd, lastJd) == Historic;
  }
}
