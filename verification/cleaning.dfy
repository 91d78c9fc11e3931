/** The record cleaner of cleandata.py (lines 29-69): the region typo fix,
    the customer-id fill, numeric normalisation with the median fill, the
    date fill, title-casing with the mode fill, the location column,
    deduplication on the transaction id and the absolute amounts. Each step
    is a function from table to table; a step where the script raises gives
    a `CleanError`. */
module Cleaning {
  import opened Wrappers
  import opened Text
  import opened Numeric
  import opened Records
  import Stats
  import Sequences

  /** Why the script stops. `NoTextValues`: a text column has no text at all,
      so pandas' `.str` accessor or `mode()[0]` raises. `NotNumeric`: a cell
      of an amount column that `float()` rejects. */
  datatype CleanError = NoTextValues(column: string) | NotNumeric(column: string, text: string)

  // ---------------------------------------------------------------------------
  // Region typo (line 29)
  // ---------------------------------------------------------------------------

  const Misspelt: string := "Westrn Cape"
  const Corrected: string := "Western Cape"

  function FixRegion(v: Option<string>): Option<string> {
    match v
    case None => None
    case Some(t) => Some(ReplaceAll(t, Misspelt, Corrected))
  }

  /** The misspelt region name becomes the correct one. */
  lemma FixRegionTypo()
    ensures FixRegion(Some(Misspelt)) == Some(Corrected)
  {
    ReplacePattern(Misspelt, Corrected);
  }

  /** A region without the misspelling is left alone, and so is a missing one. */
  lemma FixRegionClean(v: Option<string>)
    requires v.Some? ==> forall i :: 0 <= i < |v.value| ==> !OccursAt(v.value, Misspelt, i)
    ensures FixRegion(v) == v
  {
    if v.Some? {
      ReplaceNoMatch(v.value, Misspelt, Corrected);
    }
  }

  /** An occurrence of the misspelling is replaced where it stands, and the
      text on either side is fixed on its own. */
  lemma FixRegionAround(a: string, b: string)
    requires NoStraddle(a, Misspelt + b, Misspelt)
    ensures FixRegion(Some(a + Misspelt + b)) == Some(ReplaceAll(a, Misspelt, Corrected) + Corrected + ReplaceAll(b, Misspelt, Corrected))
  {
    ReplaceAround(a, b, Misspelt, Corrected);
  }

  function MapRegions(rows: seq<Row>): (r: seq<Row>)
    ensures |r| == |rows|
    ensures forall i :: 0 <= i < |r| ==> r[i] == rows[i].(region := FixRegion(rows[i].region))
  {
    if rows == [] then [] else [rows[0].(region := FixRegion(rows[0].region))] + MapRegions(rows[1..])
  }

  /** Line 29. The `.str` accessor raises on a non-empty column with no text. */
  function FixRegions(rows: seq<Row>): (r: Result<seq<Row>, CleanError>)
    ensures r.Failure? <==> |rows| > 0 && forall i :: 0 <= i < |rows| ==> rows[i].region.None?
    ensures r.Failure? ==> r.error == NoTextValues("region")
    ensures r.Success? ==> r.value == MapRegions(rows)
  {
    if |rows| > 0 && forall i :: 0 <= i < |rows| ==> rows[i].region.None? then
      Failure(NoTextValues("region"))
    else
      Success(MapRegions(rows))
  }

  // ---------------------------------------------------------------------------
  // Customer ids (line 32)
  // ---------------------------------------------------------------------------

  const Anonymous: string := "ANONYMOUS"

  function FillCustomerIds(rows: seq<Row>): (r: seq<Row>)
    ensures |r| == |rows|
    ensures forall i :: 0 <= i < |r| ==> r[i].customerId.Some?
    ensures forall i :: 0 <= i < |r| && rows[i].customerId.Some? ==> r[i] == rows[i]
    ensures forall i :: 0 <= i < |r| && rows[i].customerId.None? ==> r[i] == rows[i].(customerId := Some(Anonymous))
  {
    if rows == [] then []
    else
      var row := rows[0];
      [if row.customerId.Some? then row else row.(customerId := Some(Anonymous))] + FillCustomerIds(rows[1..])
  }

  // ---------------------------------------------------------------------------
  // Amounts (lines 35-43)
  // ---------------------------------------------------------------------------

  /** Row `i` holds the first cell of column `m` that cannot be normalised. */
  predicate FirstFailure(rows: seq<Row>, m: Measure, i: int) {
    && 0 <= i < |rows|
    && CleanNumber(Amount(rows[i], m)).Failure?
    && forall j :: 0 <= j < i ==> CleanNumber(Amount(rows[j], m)).Success?
  }

  /** One cell of column `m` normalised, or the text that is not a number. */
  function ConvertCell(m: Measure): Row -> Result<Row, string> {
    row =>
      match CleanNumber(Amount(row, m))
      case Success(v) => Success(WithAmount(row, m, ToCell(v)))
      case Failure(text) => Failure(text)
  }

  /** Line 41 on one column: every cell normalised, or the first cell that
      cannot be. */
  function ConvertColumn(rows: seq<Row>, m: Measure): (r: Result<seq<Row>, CleanError>)
    ensures r.Success? <==> forall i :: 0 <= i < |rows| ==> CleanNumber(Amount(rows[i], m)).Success?
    ensures r.Failure? ==> r.error.NotNumeric? && r.error.column == MeasureName(m)
    ensures r.Success? ==> |r.value| == |rows|
    ensures r.Success? ==> forall i :: 0 <= i < |rows| ==>
              r.value[i] == WithAmount(rows[i], m, ToCell(CleanNumber(Amount(rows[i], m)).value))
  {
    match TryMap(rows, ConvertCell(m))
    case Success(converted) => Success(converted)
    case Failure(text) => Failure(NotNumeric(MeasureName(m), text))
  }

  /** A failing column reports the text of its first cell that cannot be
      normalised. */
  lemma ConvertColumnFirstFailure(rows: seq<Row>, m: Measure)
    requires ConvertColumn(rows, m).Failure?
    ensures exists i :: FirstFailure(rows, m, i) && Amount(rows[i], m) == Str(ConvertColumn(rows, m).error.text)
  {
    var i := TryMapFirstFailure(rows, ConvertCell(m));
    assert FirstFailure(rows, m, i);
  }

  /** The amounts of column `m`; a cell that is not a number reads as missing. */
  function Column(rows: seq<Row>, m: Measure): (c: seq<Option<real>>)
    ensures |c| == |rows|
    ensures forall i :: 0 <= i < |rows| ==> (c[i].Some? <==> Amount(rows[i], m).Num?)
    ensures forall i :: 0 <= i < |rows| && c[i].Some? ==> c[i].value == Amount(rows[i], m).number
  {
    if rows == [] then []
    else
      var a := Amount(rows[0], m);
      [if a.Num? then Some(a.number) else None] + Column(rows[1..], m)
  }

  /** `fillna(v)` on column `m`: missing cells take `v` when it is a number. */
  function FillMissing(rows: seq<Row>, m: Measure, v: Option<real>): (r: seq<Row>)
    ensures |r| == |rows|
    ensures forall i :: 0 <= i < |rows| && Amount(rows[i], m).Missing? && v.Some? ==>
              r[i] == WithAmount(rows[i], m, Num(v.value))
    ensures forall i :: 0 <= i < |rows| && !(Amount(rows[i], m).Missing? && v.Some?) ==> r[i] == rows[i]
  {
    if rows == [] then []
    else
      var row := rows[0];
      [if Amount(row, m).Missing? && v.Some? then WithAmount(row, m, Num(v.value)) else row]
        + FillMissing(rows[1..], m, v)
  }

  /** Line 43: missing amounts become the median of the column. */
  function FillMedian(rows: seq<Row>, m: Measure): (r: seq<Row>)
    ensures |r| == |rows|
    ensures forall i :: 0 <= i < |rows| && Amount(rows[i], m).Missing? && Stats.Median(Column(rows, m)).Some? ==>
              r[i] == WithAmount(rows[i], m, Num(Stats.Median(Column(rows, m)).value))
    ensures forall i :: 0 <= i < |rows| && !Amount(rows[i], m).Missing? ==> r[i] == rows[i]
    ensures Stats.Median(Column(rows, m)).None? ==> r == rows
  {
    FillMissing(rows, m, Stats.Median(Column(rows, m)))
  }

  /** The median fill leaves no gap in a column with at least one number. */
  lemma FillMedianComplete(rows: seq<Row>, m: Measure)
    requires forall i :: 0 <= i < |rows| ==> !Amount(rows[i], m).Str?
    requires exists i :: 0 <= i < |rows| && Amount(rows[i], m).Num?
    ensures forall i :: 0 <= i < |rows| ==> Amount(FillMedian(rows, m)[i], m).Num?
  {
    var i :| 0 <= i < |rows| && Amount(rows[i], m).Num?;
    assert Column(rows, m)[i].Some?;
  }

  /** A column [10, 20, missing] is filled with 15. */
  lemma FillMedianExample(rows: seq<Row>)
    requires |rows| == 3
    requires Amount(rows[0], Budget) == Num(10.0) && Amount(rows[1], Budget) == Num(20.0)
    requires Amount(rows[2], Budget) == Missing
    ensures Amount(FillMedian(rows, Budget)[2], Budget) == Num(15.0)
    ensures FillMedian(rows, Budget)[..2] == rows[..2]
  {
    var c := Column(rows, Budget);
    assert c == [Some(10.0), Some(20.0), None];
    Stats.MedianExample(c);
  }

  /** What a cell of an amount column holds after `clean_numeric` (line 41);
      a cell it rejects reads as missing here, but then the column raises. */
  function Reading(c: Cell): Option<real> {
    match CleanNumber(c)
    case Success(v) => v
    case Failure(_) => None
  }

  /** Column `m` of `rows` as line 41 leaves it. */
  function Readings(rows: seq<Row>, m: Measure): (c: seq<Option<real>>)
    ensures |c| == |rows|
    ensures forall i :: 0 <= i < |rows| ==> c[i] == Reading(Amount(rows[i], m))
  {
    seq(|rows|, i requires 0 <= i < |rows| => Reading(Amount(rows[i], m)))
  }

  /** The value line 43 fills the gaps of column `m` with: the median of the
      normalised column of `rows`, missing when no cell holds a number. */
  function MedianFill(rows: seq<Row>, m: Measure): Option<real> {
    Stats.Median(Readings(rows, m))
  }

  /** The fill value of every amount column of `rows`. */
  function MedianFills(rows: seq<Row>): Measure -> Option<real> {
    m => MedianFill(rows, m)
  }

  /** Tables that agree on column `m` have the same fill value for it. */
  lemma SameAmountsFill(a: seq<Row>, b: seq<Row>, m: Measure)
    requires |a| == |b|
    requires forall i :: 0 <= i < |a| ==> Amount(a[i], m) == Amount(b[i], m)
    ensures MedianFill(a, m) == MedianFill(b, m)
  {
    assert Readings(a, m) == Readings(b, m);
  }

  /** The column line 43 takes the median of is the normalised column. */
  lemma ConvertedReadings(rows: seq<Row>, m: Measure)
    requires ConvertColumn(rows, m).Success?
    ensures Column(ConvertColumn(rows, m).value, m) == Readings(rows, m)
    ensures FillMedian(ConvertColumn(rows, m).value, m) == FillMissing(ConvertColumn(rows, m).value, m, MedianFill(rows, m))
  {
    var converted := ConvertColumn(rows, m).value;
    forall i | 0 <= i < |rows| ensures Column(converted, m)[i] == Readings(rows, m)[i] {
      assert Amount(converted[i], m) == ToCell(CleanNumber(Amount(rows[i], m)).value);
    }
  }

  /** A cell after lines 41 and 43: the number it reads as, and for a cell
      that reads as missing the column's fill value `fill`. A cell
      `float()` rejects never gets here. */
  predicate CellCleaned(before: Cell, after: Cell, fill: Option<real>) {
    match CleanNumber(before)
    case Failure(_) => false
    case Success(Some(x)) => after == Num(x)
    case Success(None) => after == ToCell(fill)
  }

  /** The row after the columns `ms` are cleaned: each filled with the
      column's fill value in `fills`, every other column as it was. */
  predicate RowCleaned(before: Row, ms: seq<Measure>, after: Row, fills: Measure -> Option<real>) {
    && SameButAmounts(after, before)
    && (forall n :: n in ms ==> CellCleaned(Amount(before, n), Amount(after, n), fills(n)))
    && (forall n :: n !in ms ==> Amount(after, n) == Amount(before, n))
  }

  /** `after` is `before` with the columns `ms` cleaned, the medians taken
      in `before`. */
  predicate TableCleaned(before: seq<Row>, ms: seq<Measure>, after: seq<Row>) {
    |after| == |before| && forall i :: 0 <= i < |before| ==> RowCleaned(before[i], ms, after[i], MedianFills(before))
  }

  /** Some cell of column `n` cannot be normalised. */
  predicate ColumnFails(rows: seq<Row>, n: Measure) {
    exists i :: 0 <= i < |rows| && CleanNumber(Amount(rows[i], n)).Failure?
  }

  /** `e` is what line 41 raises when the columns `ms` are cleaned in order:
      it names the first listed column holding a cell `float()` rejects, and
      carries the text of that column's first such cell. */
  predicate RaisesNotNumeric(rows: seq<Row>, ms: seq<Measure>, e: CleanError) {
    exists k, i ::
      && 0 <= k < |ms| && 0 <= i < |rows| && FirstFailure(rows, ms[k], i)
      && (forall j :: 0 <= j < k ==> !ColumnFails(rows, ms[j]))
      && e.NotNumeric? && e.column == MeasureName(ms[k]) && Amount(rows[i], ms[k]) == Str(e.text)
  }

  /** Lines 37-43, column after column: each column is normalised and then
      its gaps filled with its median, before the next column is touched.
      The script stops at the first column holding text `float()` rejects.
      The script's list of columns has no repeats. */
  function CleanMeasures(rows: seq<Row>, ms: seq<Measure>): (r: Result<seq<Row>, CleanError>)
    requires Sequences.NoRepeats(ms)
    ensures r.Success? ==> TableCleaned(rows, ms, r.value)
    ensures r.Failure? <==> exists n :: n in ms && ColumnFails(rows, n)
    ensures r.Failure? ==> r.error.NotNumeric?
    ensures r.Failure? ==> RaisesNotNumeric(rows, ms, r.error)
    decreases |ms|
  {
    if ms == [] then
      Success(rows)
    else
      var m := ms[0];
      var converted := ConvertColumn(rows, m);
      if converted.Failure? then
        assert ColumnFails(rows, m);
        HeadRaises(rows, ms);
        Failure(converted.error)
      else
        var filled := FillMedian(converted.value, m);
        CleanMeasuresStep(rows, m, filled);
        Sequences.NoRepeatsTail(ms);
        var r := CleanMeasures(filled, ms[1..]);
        CleanMeasuresRest(rows, ms, filled, r);
        r
  }

  /** The remaining columns' outcome on the table after the first column is
      the outcome on the whole list of columns. */
  lemma CleanMeasuresRest(rows: seq<Row>, ms: seq<Measure>, filled: seq<Row>, r: Result<seq<Row>, CleanError>)
    requires |ms| > 0 && ms[0] !in ms[1..]
    requires forall i :: 0 <= i < |rows| ==> CleanNumber(Amount(rows[i], ms[0])).Success?
    requires TableCleaned(rows, [ms[0]], filled)
    requires forall n :: ColumnFails(filled, n) <==> n != ms[0] && ColumnFails(rows, n)
    requires r.Failure? <==> exists n :: n in ms[1..] && ColumnFails(filled, n)
    requires r.Success? ==> TableCleaned(filled, ms[1..], r.value)
    requires r.Failure? ==> RaisesNotNumeric(filled, ms[1..], r.error)
    ensures r.Failure? <==> exists n :: n in ms && ColumnFails(rows, n)
    ensures r.Success? ==> TableCleaned(rows, ms, r.value)
    ensures r.Failure? ==> RaisesNotNumeric(rows, ms, r.error)
  {
    var m := ms[0];
    assert forall n :: n in ms <==> n == m || n in ms[1..];
    if r.Success? {
      TableCleanedCompose(rows, m, filled, ms[1..], r.value);
      assert [m] + ms[1..] == ms;
    } else {
      CleanedOneKeeps(rows, m, filled);
      RestRaises(rows, ms, filled, r.error);
    }
  }

  /** Cleaning column `m` leaves every other amount column as it was. */
  lemma CleanedOneKeeps(a: seq<Row>, m: Measure, b: seq<Row>)
    requires TableCleaned(a, [m], b)
    ensures |b| == |a| && forall i, n :: 0 <= i < |a| && n != m ==> Amount(b[i], n) == Amount(a[i], n)
  {
    forall i, n | 0 <= i < |a| && n != m ensures Amount(b[i], n) == Amount(a[i], n) {
      assert RowCleaned(a[i], [m], b[i], MedianFills(a)) && n !in [m];
    }
  }

  /** When the first listed column fails, it is the one the script names. */
  lemma HeadRaises(rows: seq<Row>, ms: seq<Measure>)
    requires |ms| > 0 && ConvertColumn(rows, ms[0]).Failure?
    ensures RaisesNotNumeric(rows, ms, ConvertColumn(rows, ms[0]).error)
  {
    ConvertColumnFirstFailure(rows, ms[0]);
    var e := ConvertColumn(rows, ms[0]).error;
    var i :| FirstFailure(rows, ms[0], i) && Amount(rows[i], ms[0]) == Str(e.text);
    assert 0 <= 0 < |ms| && 0 <= i < |rows| && FirstFailure(rows, ms[0], i);
  }

  /** A failure among the later columns, after the first column was cleaned
      without failing, is reported as on the input table. */
  lemma RestRaises(rows: seq<Row>, ms: seq<Measure>, filled: seq<Row>, e: CleanError)
    requires |ms| > 0 && ms[0] !in ms[1..] && !ColumnFails(rows, ms[0])
    requires |filled| == |rows|
    requires forall i, n :: 0 <= i < |rows| && n != ms[0] ==> Amount(filled[i], n) == Amount(rows[i], n)
    requires RaisesNotNumeric(filled, ms[1..], e)
    ensures RaisesNotNumeric(rows, ms, e)
  {
    var k, i :| && 0 <= k < |ms[1..]| && 0 <= i < |filled| && FirstFailure(filled, ms[1..][k], i)
                && (forall j :: 0 <= j < k ==> !ColumnFails(filled, ms[1..][j]))
                && e.NotNumeric? && e.column == MeasureName(ms[1..][k]) && Amount(filled[i], ms[1..][k]) == Str(e.text);
    var n := ms[k + 1];
    assert n == ms[1..][k] && n != ms[0];
    forall j | 0 <= j < k + 1 ensures !ColumnFails(rows, ms[j]) {
      if j > 0 {
        assert ms[j] == ms[1..][j - 1] && ms[j] != ms[0];
        assert !ColumnFails(filled, ms[j]);
        forall x | 0 <= x < |rows| ensures CleanNumber(Amount(rows[x], ms[j])).Success? {
          assert Amount(filled[x], ms[j]) == Amount(rows[x], ms[j]);
        }
      }
    }
    assert FirstFailure(rows, ms[k + 1], i);
  }

  /** What one column's normalisation and fill do to the table. */
  lemma CleanMeasuresStep(rows: seq<Row>, m: Measure, filled: seq<Row>)
    requires ConvertColumn(rows, m).Success?
    requires filled == FillMedian(ConvertColumn(rows, m).value, m)
    ensures TableCleaned(rows, [m], filled)
    ensures forall n :: ColumnFails(filled, n) <==> n != m && ColumnFails(rows, n)
  {
    var converted := ConvertColumn(rows, m).value;
    ConvertedReadings(rows, m);
    var v := MedianFill(rows, m);
    forall i | 0 <= i < |rows| ensures RowCleaned(rows[i], [m], filled[i], MedianFills(rows)) {
      FilledRow(rows[i], m, converted[i], filled[i], v);
      RowCleanedOne(rows[i], m, filled[i], MedianFills(rows));
    }
    forall n ensures ColumnFails(filled, n) <==> n != m && ColumnFails(rows, n) {
      CleanedColumnFails(rows, m, filled, n);
    }
  }

  /** One cell normalised and then filled with `v`. */
  lemma FilledRow(before: Row, m: Measure, converted: Row, after: Row, v: Option<real>)
    requires CleanNumber(Amount(before, m)).Success?
    requires converted == WithAmount(before, m, ToCell(CleanNumber(Amount(before, m)).value))
    requires after == if Amount(converted, m).Missing? && v.Some? then WithAmount(converted, m, Num(v.value)) else converted
    ensures SameButAmounts(after, before)
    ensures CellCleaned(Amount(before, m), Amount(after, m), v)
    ensures forall n :: n != m ==> Amount(after, n) == Amount(before, n)
  {
  }

  /** Cleaning only column `m`, in terms of that column and the others. */
  lemma RowCleanedOne(before: Row, m: Measure, after: Row, fills: Measure -> Option<real>)
    requires SameButAmounts(after, before)
    requires CellCleaned(Amount(before, m), Amount(after, m), fills(m))
    requires forall n :: n != m ==> Amount(after, n) == Amount(before, n)
    ensures RowCleaned(before, [m], after, fills)
  {
    assert forall n :: n in [m] <==> n == m;
  }

  lemma CleanedColumnFails(rows: seq<Row>, m: Measure, after: seq<Row>, n: Measure)
    requires TableCleaned(rows, [m], after)
    ensures ColumnFails(after, n) <==> n != m && ColumnFails(rows, n)
  {
    if ColumnFails(after, n) {
      var i :| 0 <= i < |after| && CleanNumber(Amount(after[i], n)).Failure?;
      CleanedCellFails(rows[i], m, after[i], n, MedianFills(rows));
    }
    if n != m && ColumnFails(rows, n) {
      var i :| 0 <= i < |rows| && CleanNumber(Amount(rows[i], n)).Failure?;
      CleanedCellFails(rows[i], m, after[i], n, MedianFills(rows));
    }
  }

  /** A cleaned cell holds a number or nothing, so it never fails again;
      every other cell is untouched. */
  lemma CleanedCellFails(before: Row, m: Measure, after: Row, n: Measure, fills: Measure -> Option<real>)
    requires RowCleaned(before, [m], after, fills)
    ensures CleanNumber(Amount(after, n)).Failure? <==> n != m && CleanNumber(Amount(before, n)).Failure?
  {
    if n == m {
      assert !Amount(after, m).Str?;
    } else {
      assert n !in [m];
    }
  }

  /** The median of a column the first step did not touch is the same before
      and after it. */
  lemma UntouchedFill(a: seq<Row>, m: Measure, b: seq<Row>, n: Measure)
    requires TableCleaned(a, [m], b) && n != m
    ensures MedianFill(b, n) == MedianFill(a, n)
  {
    forall i | 0 <= i < |a| ensures Amount(b[i], n) == Amount(a[i], n) {
      assert RowCleaned(a[i], [m], b[i], MedianFills(a)) && n !in [m];
    }
    SameAmountsFill(b, a, n);
  }

  lemma TableCleanedCompose(a: seq<Row>, m: Measure, b: seq<Row>, rest: seq<Measure>, c: seq<Row>)
    requires TableCleaned(a, [m], b) && TableCleaned(b, rest, c) && m !in rest
    ensures TableCleaned(a, [m] + rest, c)
  {
    forall n | n != m ensures MedianFills(b)(n) == MedianFills(a)(n) {
      UntouchedFill(a, m, b, n);
    }
    forall i | 0 <= i < |a| ensures RowCleaned(a[i], [m] + rest, c[i], MedianFills(a)) {
      RowCleanedCompose(a[i], m, b[i], rest, c[i], MedianFills(a), MedianFills(b));
    }
  }

  /** A row cleaned on `m` and then on the other columns `rest` is cleaned on
      all of them, each with the fill value of the first step. */
  lemma RowCleanedCompose(x: Row, m: Measure, y: Row, rest: seq<Measure>, z: Row,
                          fa: Measure -> Option<real>, fb: Measure -> Option<real>)
    requires RowCleaned(x, [m], y, fa) && RowCleaned(y, rest, z, fb) && m !in rest
    requires forall n :: n != m ==> fb(n) == fa(n)
    ensures RowCleaned(x, [m] + rest, z, fa)
  {
    forall n | n in [m] + rest ensures CellCleaned(Amount(x, n), Amount(z, n), fa(n)) {
      if n == m {
        assert Amount(z, n) == Amount(y, n);
      } else {
        assert n !in [m] && n in rest;
      }
    }
    forall n | n !in [m] + rest ensures Amount(z, n) == Amount(x, n) {
      assert n != m && n !in rest;
    }
  }

  // ---------------------------------------------------------------------------
  // Dates (lines 46-49)
  // ---------------------------------------------------------------------------

  /** Missing dates become the latest date of the column. */
  function FillDates(rows: seq<Row>): (r: seq<Row>)
    ensures |r| == |rows|
    ensures forall i :: 0 <= i < |rows| && rows[i].date.Some? ==> r[i] == rows[i]
    ensures forall i :: 0 <= i < |rows| && rows[i].date.None? ==> r[i] == rows[i].(date := Stats.MaxDate(Dates(rows)))
  {
    FillDatesWith(rows, Stats.MaxDate(Dates(rows)))
  }

  function FillDatesWith(rows: seq<Row>, latest: Option<CalendarDate>): (r: seq<Row>)
    ensures |r| == |rows|
    ensures forall i :: 0 <= i < |rows| && rows[i].date.Some? ==> r[i] == rows[i]
    ensures forall i :: 0 <= i < |rows| && rows[i].date.None? ==> r[i] == rows[i].(date := latest)
  {
    if rows == [] then []
    else
      var row := rows[0];
      [if row.date.Some? then row else row.(date := latest)] + FillDatesWith(rows[1..], latest)
  }

  /** After the fill every date is present when one was, and no date is
      later than the latest present one. */
  lemma FillDatesLatest(rows: seq<Row>)
    ensures forall i :: 0 <= i < |rows| ==>
              (FillDates(rows)[i].date.Some? <==> exists j :: 0 <= j < |rows| && rows[j].date.Some?)
    ensures forall i, j :: 0 <= i < |rows| && 0 <= j < |rows| && rows[j].date.Some? ==>
              DateLe(rows[j].date.value, FillDates(rows)[i].date.value) || rows[i].date.Some?
  {
    var d := Dates(rows);
    forall i | 0 <= i < |rows|
      ensures FillDates(rows)[i].date.Some? <==> exists j :: 0 <= j < |rows| && rows[j].date.Some?
    {
      if exists j :: 0 <= j < |rows| && rows[j].date.Some? {
        var j :| 0 <= j < |rows| && rows[j].date.Some?;
        assert d[j].Some?;
      }
    }
  }

  // ---------------------------------------------------------------------------
  // Categorical columns (lines 52-55)
  // ---------------------------------------------------------------------------

  /** `str.strip().str.title()` on one cell. */
  function Tidy(v: Option<string>): (r: Option<string>)
    ensures r.None? <==> v.None?
    ensures r.Some? ==> |r.value| <= |v.value| && Unpadded(r.value)
    ensures r.Some? ==> Title(r.value) == r.value
  {
    match v
    case None => None
    case Some(t) => TidyShape(t); Some(Title(Strip(t)))
  }

  /** A tidied text has no surrounding whitespace and is its own title case. */
  lemma TidyShape(t: string)
    ensures Unpadded(Title(Strip(t))) && Title(Title(Strip(t))) == Title(Strip(t))
  {
    var s := Strip(t);
    if s != [] {
      TitleKeepsSpace(s, 0);
      TitleKeepsSpace(s, |s| - 1);
    }
    TitleIdempotent(s);
  }

  /** Tidying twice is tidying once. */
  lemma TidyIdempotent(v: Option<string>)
    ensures Tidy(Tidy(v)) == Tidy(v)
  {
    if v.Some? {
      StripUnpadded(Tidy(v).value);
    }
  }

  /** Title-casing never turns a non-space into whitespace. */
  lemma TitleKeepsSpace(t: string, i: nat)
    requires i < |t| && !IsSpace(t[i])
    ensures |Title(t)| == |t| && !IsSpace(Title(t)[i])
  {
    var c := t[i];
    if IsCased(c) {
      assert Title(t)[i] == ToUpper(c) || Title(t)[i] == ToLower(c);
    }
  }

  function Labels(rows: seq<Row>, c: Category): (l: seq<Option<string>>)
    ensures |l| == |rows|
    ensures forall i :: 0 <= i < |rows| ==> l[i] == Label(rows[i], c)
  {
    Sequences.Map(rows, (r: Row) => Label(r, c))
  }

  function TidyLabels(rows: seq<Row>, c: Category): (r: seq<Row>)
    ensures |r| == |rows|
    ensures forall i :: 0 <= i < |rows| ==> r[i] == WithLabel(rows[i], c, Tidy(Label(rows[i], c)))
  {
    if rows == [] then []
    else [WithLabel(rows[0], c, Tidy(Label(rows[0], c)))] + TidyLabels(rows[1..], c)
  }

  function FillLabels(rows: seq<Row>, c: Category, v: string): (r: seq<Row>)
    ensures |r| == |rows|
    ensures forall i :: 0 <= i < |rows| && Label(rows[i], c).Some? ==> r[i] == rows[i]
    ensures forall i :: 0 <= i < |rows| && Label(rows[i], c).None? ==> r[i] == WithLabel(rows[i], c, Some(v))
  {
    if rows == [] then []
    else
      var row := rows[0];
      [if Label(row, c).Some? then row else WithLabel(row, c, Some(v))] + FillLabels(rows[1..], c, v)
  }

  /** The value line 55 fills the gaps of column `c` with: the first mode of
      the column of `rows` once tidied, missing when it has no text. */
  function ModeFill(rows: seq<Row>, c: Category): Option<string> {
    Stats.Mode(Labels(TidyLabels(rows, c), c))
  }

  /** The fill value of every categorical column of `rows`. */
  function ModeFills(rows: seq<Row>): Category -> Option<string> {
    c => ModeFill(rows, c)
  }

  /** Tables that agree on column `c` have the same fill value for it. */
  lemma SameLabelsFill(a: seq<Row>, b: seq<Row>, c: Category)
    requires |a| == |b|
    requires forall i :: 0 <= i < |a| ==> Label(a[i], c) == Label(b[i], c)
    ensures ModeFill(a, c) == ModeFill(b, c)
  {
    assert Labels(TidyLabels(a, c), c) == Labels(TidyLabels(b, c), c);
  }

  /** No row has text in column `c`. */
  predicate ColumnEmpty(rows: seq<Row>, c: Category) {
    forall i :: 0 <= i < |rows| ==> Label(rows[i], c).None?
  }

  /** The row after column `c` is tidied and its gaps filled with `fill`. */
  predicate RowTidied(before: Row, c: Category, after: Row, fill: string) {
    after == WithLabel(before, c, if Label(before, c).Some? then Tidy(Label(before, c)) else Some(fill))
  }

  /** Lines 54-55 on one column: tidied, then gaps filled with the first mode
      of the tidied column; a column with no text at all raises. */
  function TidyCategory(rows: seq<Row>, c: Category): (r: Result<seq<Row>, CleanError>)
    ensures r.Failure? <==> ColumnEmpty(rows, c)
    ensures r.Failure? ==> r.error == NoTextValues(CategoryName(c))
    ensures r.Success? ==> |r.value| == |rows|
    ensures r.Success? ==> ModeFill(rows, c).Some?
    ensures r.Success? ==> forall i :: 0 <= i < |rows| ==> RowTidied(rows[i], c, r.value[i], ModeFill(rows, c).value)
  {
    var tidied := TidyLabels(rows, c);
    var labels := Labels(tidied, c);
    TidiedLabelsPresent(rows, c);
    match Stats.Mode(labels)
    case None => Failure(NoTextValues(CategoryName(c)))
    case Some(v) =>
      var r := FillLabels(tidied, c, v);
      assert forall i :: 0 <= i < |rows| ==> RowTidied(rows[i], c, r[i], v) by {
        forall i | 0 <= i < |rows| ensures RowTidied(rows[i], c, r[i], v) {
          TidiedRow(rows, c, v, i);
        }
      }
      Success(r)
  }

  lemma TidiedLabelsPresent(rows: seq<Row>, c: Category)
    ensures forall i :: 0 <= i < |rows| ==> (Labels(TidyLabels(rows, c), c)[i].None? <==> Label(rows[i], c).None?)
  {
  }

  lemma TidiedRow(rows: seq<Row>, c: Category, v: string, i: nat)
    requires i < |rows|
    ensures RowTidied(rows[i], c, FillLabels(TidyLabels(rows, c), c, v)[i], v)
  {
    var t := TidyLabels(rows, c)[i];
    assert t == WithLabel(rows[i], c, Tidy(Label(rows[i], c)));
    if Label(rows[i], c).None? {
      assert WithLabel(t, c, Some(v)) == WithLabel(rows[i], c, Some(v));
    }
  }

  /** The row after the columns `cs` are tidied: each of them has text, the
      text it had is tidied, a gap holds the column's fill value in `modes`,
      and every other column is as it was. */
  predicate RowLabelsTidied(before: Row, cs: seq<Category>, after: Row, modes: Category -> Option<string>) {
    && SameButLabels(after, before)
    && (forall m :: Amount(after, m) == Amount(before, m))
    && (forall c :: c in cs ==> Label(after, c).Some?)
    && (forall c :: c in cs && Label(before, c).Some? ==> Label(after, c) == Tidy(Label(before, c)))
    && (forall c :: c in cs && Label(before, c).None? ==> Label(after, c) == modes(c))
    && (forall c :: c !in cs ==> Label(after, c) == Label(before, c))
  }

  /** `after` is `before` with the columns `cs` tidied, the modes taken in
      `before`. */
  predicate TableTidied(before: seq<Row>, cs: seq<Category>, after: seq<Row>) {
    |after| == |before| && forall i :: 0 <= i < |before| ==> RowLabelsTidied(before[i], cs, after[i], ModeFills(before))
  }

  /** `e` is what lines 54-55 raise when the columns `cs` are tidied in
      order: it names the first listed column without any text. */
  predicate RaisesNoText(rows: seq<Row>, cs: seq<Category>, e: CleanError) {
    exists k ::
      && 0 <= k < |cs| && ColumnEmpty(rows, cs[k])
      && (forall j :: 0 <= j < k ==> !ColumnEmpty(rows, cs[j]))
      && e == NoTextValues(CategoryName(cs[k]))
  }

  /** Lines 53-55, column after column; the first column with no text at
      all raises. The script's list of columns has no repeats. */
  function TidyCategories(rows: seq<Row>, cs: seq<Category>): (r: Result<seq<Row>, CleanError>)
    requires Sequences.NoRepeats(cs)
    ensures r.Failure? <==> exists c :: c in cs && ColumnEmpty(rows, c)
    ensures r.Failure? ==> r.error.NoTextValues?
    ensures r.Failure? ==> RaisesNoText(rows, cs, r.error)
    ensures r.Success? ==> TableTidied(rows, cs, r.value)
    decreases |cs|
  {
    if cs == [] then
      Success(rows)
    else
      var step := TidyCategory(rows, cs[0]);
      if step.Failure? then
        assert cs[0] in cs && 0 <= 0 < |cs| && ColumnEmpty(rows, cs[0]);
        step
      else
        TidyCategoryStep(rows, cs[0], step.value);
        Sequences.NoRepeatsTail(cs);
        var r := TidyCategories(step.value, cs[1..]);
        TidyCategoriesStep(rows, cs, step.value, r);
        r
  }

  /** The remaining columns' outcome on the table after the first column is
      the outcome on the whole list of columns. */
  lemma TidyCategoriesStep(rows: seq<Row>, cs: seq<Category>, next: seq<Row>, r: Result<seq<Row>, CleanError>)
    requires |cs| > 0 && !ColumnEmpty(rows, cs[0]) && cs[0] !in cs[1..]
    requires TableTidied(rows, [cs[0]], next)
    requires forall d :: ColumnEmpty(next, d) <==> d != cs[0] && ColumnEmpty(rows, d)
    requires r.Failure? <==> exists c :: c in cs[1..] && ColumnEmpty(next, c)
    requires r.Success? ==> TableTidied(next, cs[1..], r.value)
    requires r.Failure? ==> RaisesNoText(next, cs[1..], r.error)
    ensures r.Failure? <==> exists c :: c in cs && ColumnEmpty(rows, c)
    ensures r.Success? ==> TableTidied(rows, cs, r.value)
    ensures r.Failure? ==> RaisesNoText(rows, cs, r.error)
  {
    TidyCategoriesFail(rows, cs, next, r.Failure?);
    if r.Success? {
      TidiedSuccessStep(rows, cs, next, r.value);
    } else {
      RestRaisesNoText(rows, cs, next, r.error);
    }
  }

  /** A later column without text, after the first column was tidied, is
      reported as on the input table. */
  lemma RestRaisesNoText(rows: seq<Row>, cs: seq<Category>, next: seq<Row>, e: CleanError)
    requires |cs| > 0 && !ColumnEmpty(rows, cs[0])
    requires forall d :: ColumnEmpty(next, d) <==> d != cs[0] && ColumnEmpty(rows, d)
    requires RaisesNoText(next, cs[1..], e)
    ensures RaisesNoText(rows, cs, e)
  {
    var k :| && 0 <= k < |cs[1..]| && ColumnEmpty(next, cs[1..][k])
             && (forall j :: 0 <= j < k ==> !ColumnEmpty(next, cs[1..][j]))
             && e == NoTextValues(CategoryName(cs[1..][k]));
    forall j | 0 <= j < k + 1 ensures !ColumnEmpty(rows, cs[j]) {
      if j > 0 {
        assert cs[j] == cs[1..][j - 1];
      }
    }
    assert cs[k + 1] == cs[1..][k] && ColumnEmpty(rows, cs[k + 1]);
  }

  lemma TidiedSuccessStep(rows: seq<Row>, cs: seq<Category>, next: seq<Row>, z: seq<Row>)
    requires |cs| > 0 && cs[0] !in cs[1..]
    requires TableTidied(rows, [cs[0]], next) && TableTidied(next, cs[1..], z)
    ensures TableTidied(rows, cs, z)
  {
    TableTidiedCompose(rows, cs[0], next, cs[1..], z);
    assert [cs[0]] + cs[1..] == cs;
  }

  /** The columns after the first fail exactly when they were empty before it. */
  lemma TidyCategoriesFail(rows: seq<Row>, cs: seq<Category>, next: seq<Row>, restFails: bool)
    requires |cs| > 0 && !ColumnEmpty(rows, cs[0])
    requires forall d :: ColumnEmpty(next, d) <==> d != cs[0] && ColumnEmpty(rows, d)
    requires restFails <==> exists d :: d in cs[1..] && ColumnEmpty(next, d)
    ensures restFails <==> exists d :: d in cs && ColumnEmpty(rows, d)
  {
    if restFails {
      var d :| d in cs[1..] && ColumnEmpty(next, d);
      assert d in cs && ColumnEmpty(rows, d);
    } else {
      forall d | d in cs ensures !ColumnEmpty(rows, d) {
        if d != cs[0] {
          assert d in cs[1..];
        }
      }
    }
  }

  /** Two rows agree on every column but the three categorical ones. */
  predicate SameButLabels(r: Row, s: Row) {
    && r.transactionId == s.transactionId && r.date == s.date && r.customerId == s.customerId
    && r.region == s.region && r.location == s.location
    && r.claimFlag == s.claimFlag && r.churnFlag == s.churnFlag && r.ordersCount == s.ordersCount
  }

  lemma TidyCategoryStep(rows: seq<Row>, c: Category, next: seq<Row>)
    requires TidyCategory(rows, c) == Success(next)
    ensures TableTidied(rows, [c], next)
    ensures forall d :: ColumnEmpty(next, d) <==> d != c && ColumnEmpty(rows, d)
  {
    var v := ModeFill(rows, c).value;
    forall i | 0 <= i < |rows| ensures RowLabelsTidied(rows[i], [c], next[i], ModeFills(rows)) {
      RowTidiedLabels(rows[i], c, next[i], v, ModeFills(rows));
    }
    assert |rows| > 0;
    forall d ensures ColumnEmpty(next, d) <==> d != c && ColumnEmpty(rows, d) {
      TidiedColumnEmpty(rows, c, next, d);
    }
  }

  lemma RowTidiedLabels(before: Row, c: Category, after: Row, fill: string, modes: Category -> Option<string>)
    requires RowTidied(before, c, after, fill) && modes(c) == Some(fill)
    ensures RowLabelsTidied(before, [c], after, modes)
  {
    var v := if Label(before, c).Some? then Tidy(Label(before, c)) else Some(fill);
    assert Label(after, c) == v && v.Some?;
    assert forall d :: d in [c] <==> d == c;
  }

  lemma TidiedColumnEmpty(rows: seq<Row>, c: Category, next: seq<Row>, d: Category)
    requires |rows| > 0 && TableTidied(rows, [c], next)
    ensures ColumnEmpty(next, d) <==> d != c && ColumnEmpty(rows, d)
  {
    forall i | 0 <= i < |rows| ensures Label(next[i], d).Some? <==> d == c || Label(rows[i], d).Some? {
      TidiedLabelPresent(rows[i], c, next[i], ModeFills(rows), d);
    }
    assert d == c ==> Label(next[0], d).Some?;
  }

  /** After column `c` is tidied it has text, and every other column has
      text exactly where it had. */
  lemma TidiedLabelPresent(x: Row, c: Category, y: Row, modes: Category -> Option<string>, d: Category)
    requires RowLabelsTidied(x, [c], y, modes)
    ensures Label(y, d).Some? <==> d == c || Label(x, d).Some?
  {
    assert d in [c] <==> d == c;
  }

  /** The mode of a column the first step did not touch is the same before
      and after it. */
  lemma UntouchedMode(a: seq<Row>, c: Category, b: seq<Row>, d: Category)
    requires TableTidied(a, [c], b) && d != c
    ensures ModeFill(b, d) == ModeFill(a, d)
  {
    forall i | 0 <= i < |a| ensures Label(b[i], d) == Label(a[i], d) {
      assert RowLabelsTidied(a[i], [c], b[i], ModeFills(a)) && d !in [c];
    }
    SameLabelsFill(b, a, d);
  }

  lemma TableTidiedCompose(a: seq<Row>, c: Category, b: seq<Row>, rest: seq<Category>, z: seq<Row>)
    requires TableTidied(a, [c], b) && TableTidied(b, rest, z) && c !in rest
    ensures TableTidied(a, [c] + rest, z)
  {
    forall d | d != c ensures ModeFills(b)(d) == ModeFills(a)(d) {
      UntouchedMode(a, c, b, d);
    }
    forall i | 0 <= i < |a| ensures RowLabelsTidied(a[i], [c] + rest, z[i], ModeFills(a)) {
      RowLabelsTidiedCompose(a[i], c, b[i], rest, z[i], ModeFills(a), ModeFills(b));
    }
  }

  /** A row tidied on `c` and then on the other columns `rest` is tidied on
      all of them, each gap with the fill value of the first step. */
  lemma RowLabelsTidiedCompose(x: Row, c: Category, y: Row, rest: seq<Category>, z: Row,
                               ma: Category -> Option<string>, mb: Category -> Option<string>)
    requires RowLabelsTidied(x, [c], y, ma) && RowLabelsTidied(y, rest, z, mb) && c !in rest
    requires forall d :: d != c ==> mb(d) == ma(d)
    ensures RowLabelsTidied(x, [c] + rest, z, ma)
  {
    var cs := [c] + rest;
    assert forall d :: d in cs <==> d == c || d in rest;
    forall d | d in cs
      ensures Label(z, d).Some?
      ensures Label(x, d).Some? ==> Label(z, d) == Tidy(Label(x, d))
      ensures Label(x, d).None? ==> Label(z, d) == ma(d)
    {
      if d == c {
        assert Label(z, d) == Label(y, d);
      } else {
        assert d !in [c] && d in rest && Label(y, d) == Label(x, d);
      }
    }
    forall d | d !in cs ensures Label(z, d) == Label(x, d) {
      assert d !in [c] && d !in rest;
    }
  }

  // ---------------------------------------------------------------------------
  // Location (line 58)
  // ---------------------------------------------------------------------------

  /** `region + ', ' + country`; missing when either part is. */
  function Location(region: Option<string>, country: Option<string>): (r: Option<string>)
    ensures r.Some? <==> region.Some? && country.Some?
    ensures r.Some? ==> |r.value| >= |region.value| && r.value[..|region.value|] == region.value
                        && r.value[|region.value|..] == ", " + country.value
  {
    if region.Some? && country.Some? then Some(region.value + ", " + country.value) else None
  }

  function AddLocations(rows: seq<Row>): (r: seq<Row>)
    ensures |r| == |rows|
    ensures forall i :: 0 <= i < |rows| ==> r[i] == rows[i].(location := Location(rows[i].region, rows[i].country))
  {
    if rows == [] then []
    else [rows[0].(location := Location(rows[0].region, rows[0].country))] + AddLocations(rows[1..])
  }

  // ---------------------------------------------------------------------------
  // Deduplication (line 65)
  // ---------------------------------------------------------------------------

  function TransactionKey(r: Row): Option<string> {
    r.transactionId
  }

  /** `drop_duplicates(subset='transaction_id', keep='first')`. */
  function DropDuplicateTransactions(rows: seq<Row>): (r: seq<Row>)
    ensures |r| <= |rows|
    ensures Sequences.IsDedup(rows, TransactionKey, r)
  {
    Sequences.DedupBy(rows, TransactionKey)
  }

  /** Of two rows with the same transaction id only the first stays. */
  lemma DuplicateExample(a: Row, b: Row)
    requires a.transactionId == b.transactionId
    ensures DropDuplicateTransactions([a, b]) == [a]
  {
    var s := [a, b];
    assert s[..1] == [a] && [a][..0] == [];
    assert Sequences.DedupBy([a], TransactionKey) == [a];
    assert TransactionKey(b) in Sequences.Keys([a], TransactionKey);
  }

  // ---------------------------------------------------------------------------
  // Absolute amounts (lines 68-69)
  // ---------------------------------------------------------------------------

  function AbsCell(c: Cell): (d: Cell)
    ensures d.Missing? <==> c.Missing?
    ensures d.Num? <==> c.Num?
    ensures d.Num? ==> d.number >= 0.0 && (d.number == c.number || d.number == -c.number)
  {
    match c
    case Num(x) => Num(if x < 0.0 then -x else x)
    case _ => c
  }

  function AbsRow(r: Row): (s: Row)
    ensures SameButAmounts(s, r)
    ensures forall m :: m != Claim ==> Amount(s, m) == AbsCell(Amount(r, m))
    ensures Amount(s, Claim) == Amount(r, Claim)
  {
    r.(budget := AbsCell(r.budget), actual := AbsCell(r.actual), cost := AbsCell(r.cost), revenue := AbsCell(r.revenue))
  }

  function AbsAmounts(rows: seq<Row>): (r: seq<Row>)
    ensures |r| == |rows|
    ensures forall i :: 0 <= i < |rows| ==> r[i] == AbsRow(rows[i])
  {
    if rows == [] then [] else [AbsRow(rows[0])] + AbsAmounts(rows[1..])
  }

  /** The cell after lines 41 and 43 and `abs()`: the magnitude of the
      number it reads as, and for a cell that reads as missing the magnitude
      of the column's fill value `fill`. */
  predicate CellCleanedAbs(before: Cell, after: Cell, fill: Option<real>) {
    match CleanNumber(before)
    case Failure(_) => false
    case Success(Some(x)) => after == Num(Abs(x))
    case Success(None) => after == if fill.Some? then Num(Abs(fill.value)) else Missing
  }

  function Abs(x: real): real {
    if x < 0.0 then -x else x
  }

  lemma AbsCellCleaned(a: Cell, b: Cell, fill: Option<real>)
    requires CellCleaned(a, b, fill)
    ensures CellCleanedAbs(a, AbsCell(b), fill)
    ensures !AbsCell(b).Str? && (AbsCell(b).Num? ==> AbsCell(b).number >= 0.0)
  {
  }

  // ---------------------------------------------------------------------------
  // The whole script (lines 29-69)
  // ---------------------------------------------------------------------------

  /** The columns other than the amounts of a row before and after cleaning,
      where the date and label fills come from the input table `table`. */
  predicate RowTidy(before: Row, after: Row, table: seq<Row>) {
    && after.transactionId == before.transactionId
    && after.region == FixRegion(before.region)
    && (before.customerId.Some? ==> after.customerId == before.customerId)
    && (before.customerId.None? ==> after.customerId == Some(Anonymous))
    && (before.date.Some? ==> after.date == before.date)
    && (before.date.None? ==> after.date == Stats.MaxDate(Dates(table)))
    && (forall c :: Label(after, c).Some?)
    && (forall c :: Label(before, c).Some? ==> Label(after, c) == Tidy(Label(before, c)))
    && (forall c :: Label(before, c).None? ==> Label(after, c) == ModeFill(table, c))
    && after.location == Location(after.region, after.country)
    && after.claimFlag == before.claimFlag && after.churnFlag == before.churnFlag
    && after.ordersCount == before.ordersCount
  }

  /** A row before deduplication: tidied, and every amount cleaned with the
      median of its column in the input table `table`. */
  predicate RowPrepared(before: Row, after: Row, table: seq<Row>) {
    RowTidy(before, after, table) && forall m :: CellCleaned(Amount(before, m), Amount(after, m), MedianFill(table, m))
  }

  /** A row of the cleaned table: tidied, the claim amount cleaned, and the
      four monetary amounts cleaned and made non-negative. */
  predicate RowFinished(before: Row, after: Row, table: seq<Row>) {
    && RowTidy(before, after, table)
    && CellCleaned(Amount(before, Claim), Amount(after, Claim), MedianFill(table, Claim))
    && forall m :: m != Claim ==> CellCleanedAbs(Amount(before, m), Amount(after, m), MedianFill(table, m))
  }

  /** The region step raises: a non-empty table without any region text. */
  predicate RegionsEmpty(rows: seq<Row>) {
    |rows| > 0 && forall i :: 0 <= i < |rows| ==> rows[i].region.None?
  }

  /** The script raises on `rows`: at the region step, at an amount column
      holding text `float()` rejects, or at a categorical column without
      text. */
  predicate CleanFails(rows: seq<Row>) {
    || RegionsEmpty(rows)
    || (exists n :: n in Measures && ColumnFails(rows, n))
    || (exists c :: c in Categories && ColumnEmpty(rows, c))
  }

  /** `e` is the error the script stops with on `rows`: the region step is
      the first to raise, then the amount columns in their listed order, then
      the categorical columns in theirs. */
  predicate RaisesAt(rows: seq<Row>, e: CleanError) {
    if RegionsEmpty(rows) then e == NoTextValues("region")
    else if exists n :: n in Measures && ColumnFails(rows, n) then RaisesNotNumeric(rows, Measures, e)
    else RaisesNoText(rows, Categories, e)
  }

  /** Lines 29-43: the region fix, the customer ids and the amounts. */
  function Measured(rows: seq<Row>): (r: Result<seq<Row>, CleanError>) {
    var fixed :- FixRegions(rows);
    DistinctColumns();
    CleanMeasures(FillCustomerIds(fixed), Measures)
  }

  /** Lines 29-58: every step before the deduplication. */
  function Prepare(rows: seq<Row>): (r: Result<seq<Row>, CleanError>) {
    var measured :- Measured(rows);
    DistinctColumns();
    var tidied :- TidyCategories(FillDates(measured), Categories);
    Success(AddLocations(tidied))
  }

  /** The script's lists of amount and categorical columns have no repeats. */
  lemma DistinctColumns()
    ensures Sequences.NoRepeats(Measures) && Sequences.NoRepeats(Categories)
  {
  }

  /** Lines 29-69: the cleaned table, or the error the script stops with.
      Every fill value (median, latest date, mode) is that of the input
      table, before the deduplication. */
  function Clean(rows: seq<Row>): (r: Result<seq<Row>, CleanError>)
    ensures r.Failure? <==> CleanFails(rows)
    ensures r.Failure? && RegionsEmpty(rows) ==> r.error == NoTextValues("region")
    ensures r.Failure? ==> RaisesAt(rows, r.error)
    ensures r.Failure? && !RegionsEmpty(rows) ==> (r.error.NotNumeric? <==> exists n :: n in Measures && ColumnFails(rows, n))
    ensures r.Success? ==> |r.value| <= |rows|
    ensures r.Success? ==> Sequences.DistinctKeys(r.value, TransactionKey)
    ensures r.Success? ==> Sequences.Keys(r.value, TransactionKey) == Sequences.Keys(rows, TransactionKey)
    ensures r.Success? ==> forall i :: 0 <= i < |r.value| ==>
              && r.value[i].transactionId in Sequences.Keys(rows, TransactionKey)
              && RowFinished(rows[Sequences.FirstIndex(rows, TransactionKey, r.value[i].transactionId)], r.value[i], rows)
    ensures r.Success? ==> forall i, j :: 0 <= i < j < |r.value| ==>
              Sequences.FirstIndex(rows, TransactionKey, r.value[i].transactionId)
                < Sequences.FirstIndex(rows, TransactionKey, r.value[j].transactionId)
  {
    PrepareFails(rows);
    match Prepare(rows)
    case Failure(e) =>
      PrepareRaises(rows);
      Failure(e)
    case Success(t) =>
      PrepareRows(rows);
      var r := AbsAmounts(DropDuplicateTransactions(t));
      FinishRows(rows, t, rows);
      Success(r)
  }

  /** Where the steps up to the amounts raise. */
  lemma MeasuredFails(rows: seq<Row>)
    ensures Measured(rows).Failure? <==> RegionsEmpty(rows) || exists n :: n in Measures && ColumnFails(rows, n)
    ensures Measured(rows).Failure? && RegionsEmpty(rows) ==> Measured(rows).error == NoTextValues("region")
    ensures Measured(rows).Failure? && !RegionsEmpty(rows) ==> RaisesNotNumeric(rows, Measures, Measured(rows).error)
    ensures Measured(rows).Success? ==> forall c :: ColumnEmpty(Measured(rows).value, c) <==> ColumnEmpty(rows, c)
  {
    if !RegionsEmpty(rows) {
      var named := FillCustomerIds(MapRegions(rows));
      DistinctColumns();
      assert Measured(rows) == CleanMeasures(named, Measures);
      NamedKeeps(rows);
      SameAmountsFail(rows, named);
      SameLabelsEmpty(rows, named);
      var measured := CleanMeasures(named, Measures);
      if measured.Success? {
        CleanedLabelsEmpty(named, Measures, measured.value);
      } else {
        MeasuredRaises(rows);
      }
    }
  }

  /** The region fix and the customer-id fill touch neither the amounts nor
      the categorical labels. */
  lemma NamedKeeps(rows: seq<Row>)
    ensures |FillCustomerIds(MapRegions(rows))| == |rows|
    ensures forall i, m :: 0 <= i < |rows| ==> Amount(rows[i], m) == Amount(FillCustomerIds(MapRegions(rows))[i], m)
    ensures forall i :: 0 <= i < |rows| ==>
              var b := FillCustomerIds(MapRegions(rows))[i];
              rows[i].segment == b.segment && rows[i].productCategory == b.productCategory && rows[i].country == b.country
  {
    var fixed := MapRegions(rows);
    var named := FillCustomerIds(fixed);
    forall i | 0 <= i < |rows|
      ensures (forall m :: Amount(rows[i], m) == Amount(named[i], m))
      ensures rows[i].segment == named[i].segment && rows[i].productCategory == named[i].productCategory
      ensures rows[i].country == named[i].country
    {
      assert fixed[i] == rows[i].(region := FixRegion(rows[i].region));
    }
  }

  /** Cleaning amount columns changes nothing but the amounts. */
  lemma CleanedKeepsOthers(a: seq<Row>, ms: seq<Measure>, b: seq<Row>)
    requires TableCleaned(a, ms, b)
    ensures |b| == |a| && forall i :: 0 <= i < |a| ==> SameButAmounts(b[i], a[i])
  {
    forall i | 0 <= i < |a| ensures SameButAmounts(b[i], a[i]) {
      assert RowCleaned(a[i], ms, b[i], MedianFills(a));
    }
  }

  /** Cleaning amount columns leaves the categorical columns as they were. */
  lemma CleanedLabelsEmpty(a: seq<Row>, ms: seq<Measure>, b: seq<Row>)
    requires TableCleaned(a, ms, b)
    ensures forall c :: ColumnEmpty(b, c) <==> ColumnEmpty(a, c)
  {
    CleanedKeepsOthers(a, ms, b);
    SameLabelsEmpty(b, a);
  }

  /** Where the steps before the deduplication raise. */
  lemma PrepareFails(rows: seq<Row>)
    ensures Prepare(rows).Failure? <==> CleanFails(rows)
    ensures Prepare(rows).Failure? && RegionsEmpty(rows) ==> Prepare(rows).error == NoTextValues("region")
  {
    MeasuredFails(rows);
    var measured := Measured(rows);
    if measured.Success? {
      var dated := FillDates(measured.value);
      SameLabelsEmpty(measured.value, dated);
    }
  }

  /** The error the steps before the deduplication stop with is the one the
      script raises first: the region step, then the amount columns in
      order, then the categorical columns in order. */
  lemma PrepareRaises(rows: seq<Row>)
    requires Prepare(rows).Failure?
    ensures RaisesAt(rows, Prepare(rows).error)
    ensures !RegionsEmpty(rows) ==> (Prepare(rows).error.NotNumeric? <==> exists n :: n in Measures && ColumnFails(rows, n))
  {
    MeasuredFails(rows);
    DistinctColumns();
    var measured := Measured(rows);
    if measured.Success? {
      var dated := FillDates(measured.value);
      SameLabelsEmpty(measured.value, dated);
      var tidied := TidyCategories(dated, Categories);
      assert Prepare(rows) == Failure(tidied.error);
      SameEmptyRaise(dated, rows, Categories, tidied.error);
    }
    if !RegionsEmpty(rows) {
      RaisesAtKind(rows, Prepare(rows).error);
    }
  }

  /** Past the region step, the script raises `NotNumeric` exactly when an
      amount column holds text `float()` rejects. */
  lemma RaisesAtKind(rows: seq<Row>, e: CleanError)
    requires !RegionsEmpty(rows) && RaisesAt(rows, e)
    ensures e.NotNumeric? <==> exists n :: n in Measures && ColumnFails(rows, n)
  {
    if !exists n :: n in Measures && ColumnFails(rows, n) {
      var k :| 0 <= k < |Categories| && e == NoTextValues(CategoryName(Categories[k]));
    }
  }

  /** The amounts step reports its error as on the input table. */
  lemma MeasuredRaises(rows: seq<Row>)
    requires !RegionsEmpty(rows) && Measured(rows).Failure?
    ensures RaisesNotNumeric(rows, Measures, Measured(rows).error)
  {
    var named := FillCustomerIds(MapRegions(rows));
    DistinctColumns();
    var measured := CleanMeasures(named, Measures);
    assert Measured(rows) == measured;
    NamedKeeps(rows);
    AmountsRaiseThrough(rows, named, measured);
  }

  /** The error the amounts step reports on the named table is the one the
      input table raises, the two agreeing on every amount. */
  lemma AmountsRaiseThrough(rows: seq<Row>, named: seq<Row>, measured: Result<seq<Row>, CleanError>)
    requires |named| == |rows|
    requires forall i, m :: 0 <= i < |rows| ==> Amount(rows[i], m) == Amount(named[i], m)
    requires measured.Failure? && RaisesNotNumeric(named, Measures, measured.error)
    ensures RaisesNotNumeric(rows, Measures, measured.error)
  {
    SameAmountsRaise(named, rows, Measures, measured.error);
  }

  /** Tables that agree on the amounts raise the same error at line 41. */
  lemma SameAmountsRaise(a: seq<Row>, b: seq<Row>, ms: seq<Measure>, e: CleanError)
    requires |a| == |b|
    requires forall i, m :: 0 <= i < |a| ==> Amount(a[i], m) == Amount(b[i], m)
    requires RaisesNotNumeric(a, ms, e)
    ensures RaisesNotNumeric(b, ms, e)
  {
    var k, i :| && 0 <= k < |ms| && 0 <= i < |a| && FirstFailure(a, ms[k], i)
                && (forall j :: 0 <= j < k ==> !ColumnFails(a, ms[j]))
                && e.NotNumeric? && e.column == MeasureName(ms[k]) && Amount(a[i], ms[k]) == Str(e.text);
    var n := ms[k];
    forall j | 0 <= j < i ensures CleanNumber(Amount(b[j], n)).Success? {
      assert Amount(a[j], n) == Amount(b[j], n);
    }
    assert Amount(a[i], n) == Amount(b[i], n);
    SameAmountsFail(a, b);
    assert FirstFailure(b, n, i);
  }

  /** Tables with the same empty categorical columns raise the same error at
      lines 54-55. */
  lemma SameEmptyRaise(a: seq<Row>, b: seq<Row>, cs: seq<Category>, e: CleanError)
    requires forall c :: ColumnEmpty(a, c) <==> ColumnEmpty(b, c)
    requires RaisesNoText(a, cs, e)
    ensures RaisesNoText(b, cs, e)
  {
    var k :| && 0 <= k < |cs| && ColumnEmpty(a, cs[k])
             && (forall j :: 0 <= j < k ==> !ColumnEmpty(a, cs[j]))
             && e == NoTextValues(CategoryName(cs[k]));
    assert ColumnEmpty(b, cs[k]);
  }

  /** Tables whose rows agree on the amounts fail on the same amount columns. */
  lemma SameAmountsFail(a: seq<Row>, b: seq<Row>)
    requires |a| == |b|
    requires forall i, m :: 0 <= i < |a| ==> Amount(a[i], m) == Amount(b[i], m)
    ensures forall n :: ColumnFails(a, n) <==> ColumnFails(b, n)
  {
    forall n ensures ColumnFails(a, n) <==> ColumnFails(b, n) {
      if ColumnFails(a, n) {
        var i :| 0 <= i < |a| && CleanNumber(Amount(a[i], n)).Failure?;
        assert Amount(a[i], n) == Amount(b[i], n);
      }
      if ColumnFails(b, n) {
        var i :| 0 <= i < |b| && CleanNumber(Amount(b[i], n)).Failure?;
        assert Amount(a[i], n) == Amount(b[i], n);
      }
    }
  }

  /** Tables whose rows agree on the categorical columns have the same empty ones. */
  lemma SameLabelsEmpty(a: seq<Row>, b: seq<Row>)
    requires |a| == |b|
    requires forall i :: 0 <= i < |a| ==>
               a[i].segment == b[i].segment && a[i].productCategory == b[i].productCategory && a[i].country == b[i].country
    ensures forall c :: ColumnEmpty(a, c) <==> ColumnEmpty(b, c)
  {
    forall c ensures ColumnEmpty(a, c) <==> ColumnEmpty(b, c) {
      assert forall i :: 0 <= i < |a| ==> Label(a[i], c) == Label(b[i], c);
    }
  }

  /** Every row of the table before the deduplication is its input row,
      tidied and with its amounts cleaned. */
  lemma PrepareRows(rows: seq<Row>)
    ensures Prepare(rows).Success? ==>
              && |Prepare(rows).value| == |rows|
              && forall i :: 0 <= i < |rows| ==> RowPrepared(rows[i], Prepare(rows).value[i], rows)
  {
    if Prepare(rows).Success? {
      PrepareSteps(rows);
      DistinctColumns();
      var fixed := MapRegions(rows);
      var named := FillCustomerIds(fixed);
      var measured := CleanMeasures(named, Measures).value;
      var dated := FillDates(measured);
      var tidied := TidyCategories(dated, Categories).value;
      var located := AddLocations(tidied);
      StagesPrepared(rows, fixed, named, measured, dated, tidied, located);
    }
  }

  /** The row-by-row effect of the steps before the deduplication. */
  lemma StagesPrepared(rows: seq<Row>, fixed: seq<Row>, named: seq<Row>, measured: seq<Row>, dated: seq<Row>,
                       tidied: seq<Row>, located: seq<Row>)
    requires fixed == MapRegions(rows) && named == FillCustomerIds(fixed)
    requires TableCleaned(named, Measures, measured) && dated == FillDates(measured)
    requires TableTidied(dated, Categories, tidied) && located == AddLocations(tidied)
    ensures |located| == |rows|
    ensures forall i :: 0 <= i < |rows| ==> RowPrepared(rows[i], located[i], rows)
  {
    CleanedDates(rows, named, measured);
    StageFills(rows, named, measured, dated);
    forall i | 0 <= i < |rows| ensures RowPrepared(rows[i], located[i], rows) {
      StagePreparedAt(rows, fixed, named, measured, dated, tidied, located, i);
    }
  }

  /** The amount step leaves the dates of the input table. */
  lemma CleanedDates(rows: seq<Row>, named: seq<Row>, measured: seq<Row>)
    requires named == FillCustomerIds(MapRegions(rows))
    requires TableCleaned(named, Measures, measured)
    ensures Dates(measured) == Dates(rows)
  {
    CleanedKeepsOthers(named, Measures, measured);
    forall i | 0 <= i < |rows| ensures Dates(measured)[i] == Dates(rows)[i] {
      assert SameButAmounts(measured[i], named[i]);
    }
  }

  /** The medians the amount step fills with, and the modes the categorical
      step fills with, are those of the input table. */
  lemma StageFills(rows: seq<Row>, named: seq<Row>, measured: seq<Row>, dated: seq<Row>)
    requires named == FillCustomerIds(MapRegions(rows))
    requires TableCleaned(named, Measures, measured) && dated == FillDates(measured)
    ensures forall m :: MedianFill(named, m) == MedianFill(rows, m)
    ensures forall c :: ModeFill(dated, c) == ModeFill(rows, c)
  {
    NamedFills(rows, named);
    CleanedKeepsOthers(named, Measures, measured);
    NamedKeeps(rows);
    assert forall i :: 0 <= i < |rows| ==> SameLabels(named[i], rows[i]);
    forall c ensures ModeFill(dated, c) == ModeFill(rows, c) {
      DatedLabels(rows, named, measured, dated, c);
      SameLabelsFill(dated, rows, c);
    }
  }

  lemma NamedFills(rows: seq<Row>, named: seq<Row>)
    requires named == FillCustomerIds(MapRegions(rows))
    ensures forall m :: MedianFill(named, m) == MedianFill(rows, m)
  {
    NamedKeeps(rows);
    forall m ensures MedianFill(named, m) == MedianFill(rows, m) {
      SameAmountsFill(named, rows, m);
    }
  }

  /** The steps before the categorical one leave the labels as they were. */
  lemma DatedLabels(rows: seq<Row>, named: seq<Row>, measured: seq<Row>, dated: seq<Row>, c: Category)
    requires |named| == |rows| && forall i :: 0 <= i < |rows| ==> SameLabels(named[i], rows[i])
    requires |measured| == |named| && forall i :: 0 <= i < |named| ==> SameButAmounts(measured[i], named[i])
    requires dated == FillDates(measured)
    ensures |dated| == |rows|
    ensures forall i :: 0 <= i < |rows| ==> Label(dated[i], c) == Label(rows[i], c)
  {
    forall i | 0 <= i < |rows| ensures Label(dated[i], c) == Label(rows[i], c) {
      assert SameLabels(dated[i], measured[i]);
      LabelsThroughSteps(rows[i], named[i], measured[i], dated[i], c);
    }
  }

  /** Two rows agree on the three categorical columns. */
  predicate SameLabels(r: Row, s: Row) {
    r.segment == s.segment && r.productCategory == s.productCategory && r.country == s.country
  }

  lemma LabelsThroughSteps(before: Row, named: Row, measured: Row, dated: Row, c: Category)
    requires SameLabels(named, before) && SameButAmounts(measured, named) && SameLabels(dated, measured)
    ensures Label(dated, c) == Label(before, c)
  {
    SameButAmountsLabels(measured, named);
    match c
    case Segment =>
    case ProductCategory =>
    case Country =>
  }

  lemma StagePreparedAt(rows: seq<Row>, fixed: seq<Row>, named: seq<Row>, measured: seq<Row>, dated: seq<Row>,
                        tidied: seq<Row>, located: seq<Row>, i: int)
    requires fixed == MapRegions(rows) && named == FillCustomerIds(fixed)
    requires TableCleaned(named, Measures, measured) && dated == FillDates(measured)
    requires TableTidied(dated, Categories, tidied) && located == AddLocations(tidied)
    requires forall m :: MedianFill(named, m) == MedianFill(rows, m)
    requires forall c :: ModeFill(dated, c) == ModeFill(rows, c)
    requires Dates(measured) == Dates(rows) && 0 <= i < |rows|
    ensures RowPrepared(rows[i], located[i], rows)
  {
    AllMeasures();
    AllCategories();
    PreparedRow(rows[i], fixed[i], named[i], measured[i], dated[i], tidied[i], located[i], rows,
                MedianFills(named), ModeFills(dated));
  }

  /** A table that gets through the steps before the deduplication got
      through each of them. */
  lemma PrepareSteps(rows: seq<Row>)
    requires Prepare(rows).Success?
    ensures Sequences.NoRepeats(Measures) && Sequences.NoRepeats(Categories)
    ensures CleanMeasures(FillCustomerIds(MapRegions(rows)), Measures).Success?
    ensures var measured := CleanMeasures(FillCustomerIds(MapRegions(rows)), Measures).value;
            && TidyCategories(FillDates(measured), Categories).Success?
            && Prepare(rows).value == AddLocations(TidyCategories(FillDates(measured), Categories).value)
  {
    DistinctColumns();
    assert FixRegions(rows).Success?;
  }

  /** One row through the steps before the deduplication; `named` was
      cleaned with the fill values `fills` and `dated` tidied with the fill
      values `modes`, both those of `table`. */
  lemma PreparedRow(before: Row, fixed: Row, named: Row, measured: Row, dated: Row, tidied: Row, located: Row,
                    table: seq<Row>, fills: Measure -> Option<real>, modes: Category -> Option<string>)
    requires fixed == before.(region := FixRegion(before.region))
    requires named == if fixed.customerId.Some? then fixed else fixed.(customerId := Some(Anonymous))
    requires forall m :: m in Measures
    requires RowCleaned(named, Measures, measured, fills)
    requires forall m :: fills(m) == MedianFill(table, m)
    requires dated == if measured.date.Some? then measured else measured.(date := Stats.MaxDate(Dates(table)))
    requires forall c :: c in Categories
    requires RowLabelsTidied(dated, Categories, tidied, modes)
    requires forall c :: modes(c) == ModeFill(table, c)
    requires located == tidied.(location := Location(tidied.region, tidied.country))
    ensures RowPrepared(before, located, table)
  {
    assert forall m :: Amount(named, m) == Amount(before, m) by {
      forall m ensures Amount(named, m) == Amount(before, m) {
        match m
        case Budget =>
        case Actual =>
        case Cost =>
        case Revenue =>
        case Claim =>
      }
    }
    assert forall m :: Amount(located, m) == Amount(measured, m) by {
      forall m ensures Amount(located, m) == Amount(measured, m) {
        assert Amount(tidied, m) == Amount(dated, m);
        match m
        case Budget =>
        case Actual =>
        case Cost =>
        case Revenue =>
        case Claim =>
      }
    }
    CleanedTransfer(before, named, measured, located, fills, table);
    assert forall c :: Label(dated, c) == Label(before, c) by {
      forall c ensures Label(dated, c) == Label(before, c) {
        match c
        case Segment =>
        case ProductCategory =>
        case Country =>
      }
    }
    assert forall c :: Label(located, c) == Label(tidied, c) by {
      forall c ensures Label(located, c) == Label(tidied, c) {
        match c
        case Segment =>
        case ProductCategory =>
        case Country =>
      }
    }
    assert RowTidy(before, located, table);
  }

  lemma CleanedTransfer(before: Row, named: Row, measured: Row, located: Row,
                         fills: Measure -> Option<real>, table: seq<Row>)
    requires forall m :: Amount(named, m) == Amount(before, m)
    requires forall m :: Amount(located, m) == Amount(measured, m)
    requires forall m :: m in Measures
    requires RowCleaned(named, Measures, measured, fills)
    requires forall m :: fills(m) == MedianFill(table, m)
    ensures forall m :: CellCleaned(Amount(before, m), Amount(located, m), MedianFill(table, m))
  {
    forall m ensures CellCleaned(Amount(before, m), Amount(located, m), MedianFill(table, m)) {
      assert CellCleaned(Amount(named, m), Amount(measured, m), fills(m));
    }
  }

  /** The deduplication and `abs()` applied to a prepared table. */
  lemma FinishRows(rows: seq<Row>, t: seq<Row>, table: seq<Row>)
    requires |t| == |rows|
    requires forall i :: 0 <= i < |rows| ==> RowPrepared(rows[i], t[i], table)
    ensures var r := AbsAmounts(DropDuplicateTransactions(t));
            && |r| <= |rows|
            && Sequences.DistinctKeys(r, TransactionKey)
            && Sequences.Keys(r, TransactionKey) == Sequences.Keys(rows, TransactionKey)
            && (forall i :: 0 <= i < |r| ==>
                 && r[i].transactionId in Sequences.Keys(rows, TransactionKey)
                 && RowFinished(rows[Sequences.FirstIndex(rows, TransactionKey, r[i].transactionId)], r[i], table))
            && (forall i, j :: 0 <= i < j < |r| ==>
                 Sequences.FirstIndex(rows, TransactionKey, r[i].transactionId)
                   < Sequences.FirstIndex(rows, TransactionKey, r[j].transactionId))
  {
    PreparedIds(rows, t, table);
    FinishKeys(rows, t);
    FinishMatches(rows, t, table);
  }

  lemma PreparedIds(rows: seq<Row>, t: seq<Row>, table: seq<Row>)
    requires |t| == |rows|
    requires forall i :: 0 <= i < |rows| ==> RowPrepared(rows[i], t[i], table)
    ensures forall i :: 0 <= i < |rows| ==> t[i].transactionId == rows[i].transactionId
  {
    forall i | 0 <= i < |rows| ensures t[i].transactionId == rows[i].transactionId {
      assert RowPrepared(rows[i], t[i], table);
    }
  }

  /** The ids after the deduplication: each once, all of them, in order of
      first appearance. */
  lemma FinishKeys(rows: seq<Row>, t: seq<Row>)
    requires |t| == |rows|
    requires forall i :: 0 <= i < |rows| ==> t[i].transactionId == rows[i].transactionId
    ensures var r := AbsAmounts(DropDuplicateTransactions(t));
            && |r| <= |rows|
            && Sequences.DistinctKeys(r, TransactionKey)
            && Sequences.Keys(r, TransactionKey) == Sequences.Keys(rows, TransactionKey)
            && (forall i :: 0 <= i < |r| ==> r[i].transactionId in Sequences.Keys(rows, TransactionKey))
            && (forall i, j :: 0 <= i < j < |r| ==>
                 Sequences.FirstIndex(rows, TransactionKey, r[i].transactionId)
                   < Sequences.FirstIndex(rows, TransactionKey, r[j].transactionId))
  {
    var d := DropDuplicateTransactions(t);
    var r := AbsAmounts(d);
    assert forall i :: 0 <= i < |r| ==> TransactionKey(r[i]) == TransactionKey(d[i]);
    Sequences.DedupTransfer(rows, t, d, r, TransactionKey);
  }

  /** Each row after the deduplication is the first input row with its id,
      cleaned. */
  lemma FinishMatches(rows: seq<Row>, t: seq<Row>, table: seq<Row>)
    requires |t| == |rows|
    requires forall i :: 0 <= i < |rows| ==> t[i].transactionId == rows[i].transactionId
    requires forall i :: 0 <= i < |rows| ==> RowPrepared(rows[i], t[i], table)
    ensures var r := AbsAmounts(DropDuplicateTransactions(t));
            forall i :: 0 <= i < |r| ==>
              && r[i].transactionId in Sequences.Keys(rows, TransactionKey)
              && RowFinished(rows[Sequences.FirstIndex(rows, TransactionKey, r[i].transactionId)], r[i], table)
  {
    var d := DropDuplicateTransactions(t);
    var r := AbsAmounts(d);
    Sequences.SameKeys(t, rows, TransactionKey);
    forall i | 0 <= i < |r|
      ensures r[i].transactionId in Sequences.Keys(rows, TransactionKey)
      ensures RowFinished(rows[Sequences.FirstIndex(rows, TransactionKey, r[i].transactionId)], r[i], table)
    {
      var f := Sequences.FirstIndex(t, TransactionKey, TransactionKey(d[i]));
      assert d[i] == t[f];
      FinishedRowAt(rows, t, table, f);
    }
  }

  lemma FinishedRowAt(rows: seq<Row>, t: seq<Row>, table: seq<Row>, f: nat)
    requires |t| == |rows| && f < |rows|
    requires forall i :: 0 <= i < |rows| ==> RowPrepared(rows[i], t[i], table)
    ensures RowFinished(rows[f], AbsRow(t[f]), table)
  {
    FinishedRow(rows[f], t[f], table);
  }

  lemma FinishedRow(before: Row, prepared: Row, table: seq<Row>)
    requires RowPrepared(before, prepared, table)
    ensures RowFinished(before, AbsRow(prepared), table)
  {
    var after := AbsRow(prepared);
    TidyAcrossAmounts(before, prepared, after, table);
    forall m | m != Claim ensures CellCleanedAbs(Amount(before, m), Amount(after, m), MedianFill(table, m)) {
      AbsCellCleaned(Amount(before, m), Amount(prepared, m), MedianFill(table, m));
    }
  }

  /** Changing only the amounts keeps a row tidied. */
  lemma TidyAcrossAmounts(before: Row, a: Row, b: Row, table: seq<Row>)
    requires RowTidy(before, a, table) && SameButAmounts(b, a)
    ensures RowTidy(before, b, table)
  {
    SameButAmountsLabels(b, a);
  }

  /** An empty table passes the region step (an empty column has the text
      accessor) and stops at the first categorical column, whose `mode()`
      has no entry 0. */
  lemma CleanEmptyFails()
    ensures Clean([]) == Failure(NoTextValues("segment"))
  {
    var empty: seq<Row> := [];
    DistinctColumns();
    assert FixRegions(empty) == Success(empty);
    assert FillCustomerIds(empty) == empty;
    EmptyMeasured(Measures);
    assert Measured(empty) == Success(empty);
    assert FillDates(empty) == empty;
    var segment := TidyCategory(empty, Segment);
    assert segment == Failure(NoTextValues("segment"));
    assert TidyCategories(empty, Categories) == segment;
    assert Prepare(empty) == segment;
  }

  /** No column of an empty table fails to convert. */
  lemma {:induction false} EmptyMeasured(ms: seq<Measure>)
    requires Sequences.NoRepeats(ms)
    ensures CleanMeasures([], ms) == Success([])
    decreases |ms|
  {
    if ms != [] {
      assert ConvertColumn([], ms[0]) == Success([]);
      assert FillMedian([], ms[0]) == [];
      Sequences.NoRepeatsTail(ms);
      EmptyMeasured(ms[1..]);
    }
  }
}
