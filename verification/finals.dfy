/** UT1-UTC (`dut1`) and the pole offsets (`x`, `y`) from `finals.all`:
    locate the record of the query's MJD, take the ten rows around it, pick
    each row's final value or else its predicted one, and interpolate. */
module Finals {
  import opened Php
  import opened Lagrange
  import opened Instant
  import opened Bulletin

  /** The three quantities `finals.all` supplies. */
  datatype Quantity = Dut1 | PoleX | PoleY

  /** Byte offset of the final (Bulletin B) value of a quantity. */
  function FinalColumn(q: Quantity): nat {
    match q
    case Dut1 => 156
    case PoleX => 136
    case PoleY => 146
  }

  /** Byte offset of the predicted (Bulletin A) value of a quantity. */
  function PredictedColumn(q: Quantity): nat {
    match q
    case Dut1 => 59
    case PoleX => 18
    case PoleY => 27
  }

  const FIELD_WIDTH: nat := 9
  const MJD_COLUMN: nat := 7
  const MJD_WIDTH: nat := 8

  /** The MJD of the first record, `(int)` of line 0's MJD field (columns
      8 to 15); an empty file has only an empty first line to read. */
  function FirstMjd(lines: seq<string>, num: Numeric): (m: int)
    ensures |lines| > 0 ==> m == num.toInt(Substr(lines[0], 7, 8))
    ensures |lines| == 0 ==> m == num.toInt("")
  {
    num.toInt(Substr(Line(lines, 0), MJD_COLUMN, MJD_WIDTH))
  }

  /** The centre pointer: the query's offset from the first record, less
      one, and not floored, so it keeps the query's day fraction. A pointer
      strictly between `-INTERP_C` and `INTERP_C` is moved to `INTERP_C`. */
  function Centre(mjdQ: real, mjd0: int): (p: real)
    ensures var p0 := mjdQ - mjd0 as real - 1.0;
            if -INTERP_C as real < p0 < INTERP_C as real then p == INTERP_C as real else p == p0
    ensures mjdQ >= mjd0 as real ==> p >= INTERP_C as real
  {
    var p0 := mjdQ - mjd0 as real - 1.0;
    if p0 < INTERP_C as real && p0 > -INTERP_C as real then INTERP_C as real else p0
  }

  /** The text used for a quantity on one line: the final value when its
      trimmed text is truthy in PHP (so not "" and not "0"), otherwise the
      predicted value. */
  function Field(line: string, q: Quantity): (f: string)
    ensures |f| <= FIELD_WIDTH
    ensures var fin := Substr(line, FinalColumn(q), FIELD_WIDTH);
            (Truthy(Trim(fin)) ==> f == fin)
            && (!Truthy(Trim(fin)) ==> f == Substr(line, PredictedColumn(q), FIELD_WIDTH))
  {
    var fin := Substr(line, FinalColumn(q), FIELD_WIDTH);
    var pred := Substr(line, PredictedColumn(q), FIELD_WIDTH);
    if Truthy(Trim(fin)) then fin else pred
  }

  /** A final value written as a bare "0" is falsy in PHP, so the predicted
      value is used in its place; any other non-blank final value is used
      as it stands. */
  lemma FinalZeroFallsBack(line: string, q: Quantity)
    ensures var fin := Substr(line, FinalColumn(q), FIELD_WIDTH);
            Trim(fin) == "0" ==> Field(line, q) == Substr(line, PredictedColumn(q), FIELD_WIDTH)
    ensures var fin := Substr(line, FinalColumn(q), FIELD_WIDTH);
            !AllBlank(fin) && Trim(fin) != "0" ==> Field(line, q) == fin
  {
  }

  /** One dataset row: the line's MJD and the chosen value, or nothing when
      the chosen field holds only blanks. */
  function Row(line: string, q: Quantity, num: Numeric): (r: Option<Sample>)
    ensures r.None? <==> AllBlank(Field(line, q))
    ensures r.Some? ==> r.value.x == num.toReal(Substr(line, MJD_COLUMN, MJD_WIDTH))
    ensures r.Some? ==> r.value.y == num.toReal(Field(line, q))
  {
    var f := Field(line, q);
    if Trim(f) == "" then None
    else Some(Sample(num.toReal(Substr(line, MJD_COLUMN, MJD_WIDTH)), num.toReal(f)))
  }

  /** The dataset of a window: one row per line, in order, or nothing when
      any line lacks a value. */
  function Rows(ws: seq<string>, q: Quantity, num: Numeric): (r: Option<seq<Sample>>)
    ensures r.None? <==> exists k :: 0 <= k < |ws| && Row(ws[k], q, num).None?
    ensures r.Some? ==> |r.value| == |ws|
    ensures r.Some? ==> forall k :: 0 <= k < |ws| ==> Row(ws[k], q, num) == Some(r.value[k])
  {
    var rows := seq(|ws|, k requires 0 <= k < |ws| => Row(ws[k], q, num));
    assert forall k :: 0 <= k < |ws| ==> rows[k] == Row(ws[k], q, num);
    AllPresent(rows)
  }

  /** The ten-row dataset of a query, when every row has a value. */
  function Window(q: Quantity, t: Iers, lines: seq<string>, num: Numeric): Option<seq<Sample>> {
    Rows(WindowLines(lines, Centre(t.Mjd(), FirstMjd(lines, num))), q, num)
  }

  /** The query predates the first record of the file. */
  predicate Before(t: Iers, lines: seq<string>, num: Numeric) {
    t.Mjd() < FirstMjd(lines, num) as real
  }

  /** `dut1` checks its pointer against the last line; `x` and `y` do not. */
  predicate PastEnd(q: Quantity, t: Iers, lines: seq<string>, num: Numeric) {
    q == Dut1 && Centre(t.Mjd(), FirstMjd(lines, num)) > MaxLine(lines) as real
  }

  /** `dut1()`, `x()` and `y()`: false exactly for a query before the
      first record or a window line without a value; an exception exactly
      when `dut1`'s pointer passes the last line or the window holds two
      records of one MJD; otherwise the interpolation over the window. */
  function Query(q: Quantity, t: Iers, lines: seq<string>, num: Numeric): (r: Outcome)
    ensures r == False <==>
              Before(t, lines, num) || (!PastEnd(q, t, lines, num) && Window(q, t, lines, num).None?)
    ensures r.Throws? <==>
              !Before(t, lines, num)
              && (PastEnd(q, t, lines, num)
                  || (Window(q, t, lines, num).Some? && !DistinctNodes(Window(q, t, lines, num).value)))
    ensures r.Value? ==> r == Interpolate(t.Mjd(), Window(q, t, lines, num).value)
  {
    var mjdQ := t.Mjd();
    var mjd0 := FirstMjd(lines, num);
    if mjdQ < mjd0 as real then False
    else
      var p := Centre(mjdQ, mjd0);
      if q == Dut1 && p > MaxLine(lines) as real then Throws
      else
        match Rows(WindowLines(lines, p), q, num)
        case None => False
        case Some(ds) => Interpolate(mjdQ, ds)
  }

  /** The window of a query on or after the first record: ten rows keyed
      0 to 9, row `k` read from line `p - INTERP_C + k` (truncated), none of
      them before line 0. */
  lemma WindowShape(q: Quantity, t: Iers, lines: seq<string>, num: Numeric)
    requires !Before(t, lines, num)
    ensures var p := Centre(t.Mjd(), FirstMjd(lines, num));
            p >= INTERP_C as real
            && forall k :: 0 <= k < 2 * INTERP_C ==> WindowLine(p, k) >= 0
    ensures Window(q, t, lines, num).Some? ==>
              var ds := Window(q, t, lines, num).value;
              var p := Centre(t.Mjd(), FirstMjd(lines, num));
              |ds| == 2 * INTERP_C
              && forall k :: 0 <= k < |ds| ==>
                   Row(Line(lines, WindowLine(p, k)), q, num) == Some(ds[k])
  {
  }

  /** A line beyond the file has no value. */
  lemma EmptyLineHasNoRow(q: Quantity, num: Numeric)
    ensures Row("", q, num).None?
  {
    assert Field("", q) == "";
  }

  /** Only `dut1` ever throws for lack of data. When its pointer passes the
      last line, `x` and `y` instead read a line beyond the file, find no
      value there and return false. */
  lemma PastEndOnlyDut1Throws(t: Iers, lines: seq<string>, num: Numeric)
    requires !Before(t, lines, num)
    requires PastEnd(Dut1, t, lines, num)
    ensures Query(Dut1, t, lines, num) == Throws
    ensures Query(PoleX, t, lines, num) == False
    ensures Query(PoleY, t, lines, num) == False
  {
    var p := Centre(t.Mjd(), FirstMjd(lines, num));
    var k := INTERP_C + 1;
    assert WindowLine(p, k) > MaxLine(lines);
    var ws := WindowLines(lines, p);
    assert ws[k] == "";
    EmptyLineHasNoRow(PoleX, num);
    EmptyLineHasNoRow(PoleY, num);
    assert Window(PoleX, t, lines, num).None? by {
      assert Row(ws[k], PoleX, num).None?;
    }
    assert Window(PoleY, t, lines, num).None? by {
      assert Row(ws[k], PoleY, num).None?;
    }
  }

  /** `x` and `y` throw exactly on a division by zero: a query on or after
      the first record whose window holds two records of one MJD. */
  lemma PolesThrowOnlyOnRepeatedMjd(q: Quantity, t: Iers, lines: seq<string>, num: Numeric)
    requires q != Dut1
    ensures Query(q, t, lines, num).Throws? <==>
              !Before(t, lines, num) && Window(q, t, lines, num).Some?
              && !DistinctNodes(Window(q, t, lines, num).value)
  {
  }

  /** At the MJD of a record in its window, the query returns that
      record's value (final, else predicted), as long as the window's MJDs
      are distinct. */
  lemma QueryAtRecord(q: Quantity, t: Iers, lines: seq<string>, num: Numeric, k: nat)
    requires !Before(t, lines, num) && !PastEnd(q, t, lines, num)
    requires Window(q, t, lines, num).Some?
    requires DistinctNodes(Window(q, t, lines, num).value)
    requires k < 2 * INTERP_C
    requires Window(q, t, lines, num).value[k].x == t.Mjd()
    ensures var line := Line(lines, WindowLine(Centre(t.Mjd(), FirstMjd(lines, num)), k));
            Query(q, t, lines, num) == Value(num.toReal(Field(line, q)))
  {
    var ds := Window(q, t, lines, num).value;
    InterpolateAtNode(ds, k);
  }
}
