/** The gas classifier of `backend/load_data.py` on rows as pandas
    delivers them: an empty CSV cell is the float NaN, not a missing key, so
    `row.get(col, 0.0)` returns NaN and the `0.0` default never applies.

    Every comparison with NaN is false. Python's `min` and `max` replace
    their running value only by a strictly smaller (larger) item, so
    `clamp01(NaN)` is 1.0 and a NaN usage is ignored by the five-way `max`
    unless it comes first (NO2). A NaN gas therefore reports 0 % on its own
    while the global percentage ignores it, or, for NO2, forces the global
    percentage to 0. */
module NanCells {
  import opened Numeric
  import opened GasQuality

  /** A float cell: a number or NaN. */
  datatype Cell = Num(v: real) | NaN

  /** A row whose gas cells may hold NaN; a column may still be absent. */
  type RawRow = map<Gas, Cell>

  /** Float `x > y`: false whenever either side is NaN. */
  predicate Greater(x: Cell, y: Cell) {
    x.Num? && y.Num? && x.v > y.v
  }

  /** Two-argument `max(a, b)`: `b` replaces `a` only when `b > a`. */
  function PyMax(a: Cell, b: Cell): (m: Cell)
    ensures a.Num? && b.Num? ==> m == Num(Max(a.v, b.v))
    ensures a.NaN? ==> m == NaN
    ensures b.NaN? ==> m == a
  {
    if Greater(b, a) then b else a
  }

  /** Two-argument `min(a, b)`: `b` replaces `a` only when `b < a`. */
  function PyMin(a: Cell, b: Cell): (m: Cell)
    ensures a.Num? && b.Num? ==> m == Num(Min(a.v, b.v))
    ensures a.NaN? ==> m == NaN
    ensures b.NaN? ==> m == a
  {
    if Greater(a, b) then b else a
  }

  /** `row.get(col, 0.0)` on a pandas row: a NaN cell comes back as NaN,
      and only an absent column gets the `0.0` default. */
  function RawReading(row: RawRow, g: Gas): (c: Cell)
    ensures c.NaN? <==> g in row && row[g].NaN?
    ensures c.Num? ==> c.v == Reading(DropNaN(row), g)
  {
    if g in row then row[g] else Num(0.0)
  }

  /** `abs(reading) / limit`: NaN exactly for a NaN cell, and otherwise the
      usage `GasQuality` gives once NaN cells are read as missing. */
  function RawUsage(row: RawRow, g: Gas): (u: Cell)
    ensures u.NaN? <==> g in row && row[g].NaN?
    ensures u.Num? ==> u.v == Usage(DropNaN(row), g)
  {
    match RawReading(row, g)
    case NaN => NaN
    case Num(x) => Num(Abs(x) / Limit(g))
  }

  /** `clamp01` on a float: a number is clamped as usual, NaN becomes 1. */
  function RawClamp01(x: Cell): (r: real)
    ensures x.Num? ==> r == Clamp01(x.v)
    ensures x.NaN? ==> r == 1.0
  {
    PyMax(Num(0.0), PyMin(Num(1.0), x)).v
  }

  /** `max(use_no2, use_o3, use_hcho, use_so2, use_co)`, folded left to
      right as Python does: NaN exactly when the NO2 usage is NaN, and
      otherwise the largest of the numeric usages, later NaNs skipped. */
  function RawWorstUse(row: RawRow): (w: Cell)
    ensures w.NaN? <==> RawUsage(row, NO2).NaN?
    ensures w.Num? ==> forall g :: RawUsage(row, g).Num? ==> RawUsage(row, g).v <= w.v
    ensures exists g :: w == RawUsage(row, g)
  {
    var u1, u2, u3, u4, u5 := RawUsage(row, NO2), RawUsage(row, O3), RawUsage(row, HCHO), RawUsage(row, SO2), RawUsage(row, CO);
    var w := PyMax(PyMax(PyMax(PyMax(u1, u2), u3), u4), u5);
    PyMaxFive(u1, u2, u3, u4, u5);
    assert forall g :: RawUsage(row, g) in [u1, u2, u3, u4, u5];
    w
  }

  /** The five-way `max` on floats: NaN exactly when the first item is,
      otherwise at least every numeric item, and always one of the items. */
  lemma PyMaxFive(a: Cell, b: Cell, c: Cell, d: Cell, e: Cell)
    ensures PyMax(PyMax(PyMax(PyMax(a, b), c), d), e).NaN? <==> a.NaN?
    ensures PyMax(PyMax(PyMax(PyMax(a, b), c), d), e).Num? ==>
              forall x :: x in [a, b, c, d, e] && x.Num? ==> x.v <= PyMax(PyMax(PyMax(PyMax(a, b), c), d), e).v
    ensures PyMax(PyMax(PyMax(PyMax(a, b), c), d), e) in [a, b, c, d, e]
  {
  }

  /** One `gas_pct` entry as written: 0 for a NaN cell, and otherwise the
      percentage `GasQuality` gives once NaN cells are read as missing. */
  function RawGasPct(row: RawRow, g: Gas): (p: real)
    ensures 0.0 <= p <= 100.0
    ensures RawUsage(row, g).NaN? ==> p == 0.0
    ensures RawUsage(row, g).Num? ==> p == GasPct(DropNaN(row), g)
  {
    Round1Exact(0.0);
    Round1Percent((1.0 - RawClamp01(RawUsage(row, g))) * 100.0);
    Round1((1.0 - RawClamp01(RawUsage(row, g))) * 100.0)
  }

  /** `aqi_pct` as written: 0 when the NO2 cell is NaN, and otherwise at
      most the percentage of every gas whose cell is a number. */
  function RawAqiPct(row: RawRow): (p: real)
    ensures 0.0 <= p <= 100.0
    ensures RawUsage(row, NO2).NaN? ==> p == 0.0
  {
    Round1Exact(0.0);
    Round1Percent((1.0 - RawClamp01(RawWorstUse(row))) * 100.0);
    Round1((1.0 - RawClamp01(RawWorstUse(row))) * 100.0)
  }

  /** As written, the global percentage is still at most the percentage of
      every gas whose cell is a number; only NaN gases escape it. */
  lemma {:induction false} AsWrittenDominatesNumbers(row: RawRow)
    ensures forall g :: RawUsage(row, g).Num? ==> RawAqiPct(row) <= RawGasPct(row, g)
  {
    var w := RawWorstUse(row);
    forall g | RawUsage(row, g).Num? ensures RawAqiPct(row) <= RawGasPct(row, g) {
      if w.Num? {
        PctFromUseAntitone(RawUsage(row, g).v, w.v);
        Round1Monotone(PctFromUse(w.v), PctFromUse(RawUsage(row, g).v));
      }
    }
  }

  /** On a row without NaN cells the code as written computes exactly
      `GasQuality`'s percentages, so every lemma there applies to it. */
  lemma {:induction false} AsWrittenWithoutNaN(row: RawRow)
    requires forall g :: g in row ==> row[g].Num?
    ensures RawAqiPct(row) == AqiPct(DropNaN(row))
    ensures forall g :: RawGasPct(row, g) == GasPct(DropNaN(row), g)
  {
    var n := DropNaN(row);
    assert forall g :: RawUsage(row, g) == Num(Usage(n, g));
    assert RawWorstUse(row) == Num(WorstUse(n));
  }

  /** A NaN O3 cell: O3 reports 0 % while the row reports 100 %, so the
      global percentage is not the least per-gas percentage. */
  lemma NaNGasIgnoredByAqi()
    ensures RawGasPct(map[O3 := NaN], O3) == 0.0
    ensures RawAqiPct(map[O3 := NaN]) == 100.0
  {
    var row: RawRow := map[O3 := NaN];
    assert RawWorstUse(row) == Num(0.0);
    Round1Exact(0.0);
    assert IsTenth(100.0);
    Round1Exact(100.0);
  }

  /** A NaN NO2 cell, first in the `max`, drags the row to 0 % instead. */
  lemma NaNInFirstPlaceIsWorst()
    ensures RawAqiPct(map[NO2 := NaN]) == 0.0
  {
    assert RawWorstUse(map[NO2 := NaN]) == NaN;
    Round1Exact(0.0);
  }

  /** NaN cells read as missing: a NaN cell then reads as the `0.0`
      default of `row.get`, like an absent column, and every number reads
      as itself. */
  function DropNaN(row: RawRow): (r: Row)
    ensures r.Keys <= row.Keys
    ensures forall g :: g in row && row[g].NaN? ==> Reading(r, g) == 0.0
    ensures forall g :: g in row && row[g].Num? ==> Reading(r, g) == row[g].v
  {
    map g | g in row && row[g].Num? :: row[g].v
  }

  /** The classifier with NaN cells read as missing: the worst gas
      dominates again, and a NaN gas reports 100 % like an absent one. */
  function ComputeRowQualityCorrected(row: RawRow): (r: RowQuality)
    ensures forall g :: g in r.gasPct ==> r.aqiPct <= r.gasPct[g]
    ensures exists g :: g in r.gasPct && r.aqiPct == r.gasPct[g]
    ensures forall g :: g in row && row[g].NaN? ==> g in r.gasPct && r.gasPct[g] == 100.0
  {
    WorstGasDominates(DropNaN(row));
    NaNCellsReadClean(row);
    ComputeRowQuality(DropNaN(row))
  }

  /** On a row without NaN cells the corrected classifier gives exactly the
      percentages the code as written gives. */
  lemma CorrectedMatchesCodeWithoutNaN(row: RawRow)
    requires forall g :: g in row ==> row[g].Num?
    ensures ComputeRowQualityCorrected(row).aqiPct == RawAqiPct(row)
    ensures forall g :: g in AllGases ==> ComputeRowQualityCorrected(row).gasPct[g] == RawGasPct(row, g)
  {
    AsWrittenWithoutNaN(row);
  }

  /** Once dropped, a NaN gas reads as an absent one: 100 %. */
  lemma NaNCellsReadClean(row: RawRow)
    ensures forall g :: g in row && row[g].NaN? ==> GasPct(DropNaN(row), g) == 100.0
  {
    forall g | g in row && row[g].NaN? ensures GasPct(DropNaN(row), g) == 100.0 {
      assert Reading(DropNaN(row), g) == 0.0;
      assert IsTenth(100.0);
      Round1Exact(100.0);
    }
  }
}
