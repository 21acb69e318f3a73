/** The batch air-quality classifier of `backend/load_data.py`: every gas
    reading of a row is taken as a share of a fixed limit, the worst share
    decides a 0-100 "quality %", and that percentage is mapped to a label
    and a display colour. */
module GasQuality {
  import opened Options
  import opened Numeric

  datatype Gas = NO2 | O3 | HCHO | SO2 | CO

  const AllGases: set<Gas> := {NO2, O3, HCHO, SO2, CO}

  /** The `LIMITS` table: the reading at which a gas uses its whole allowance. */
  function Limit(g: Gas): (l: real)
    ensures l > 0.0
  {
    match g
    case NO2 => 100.0
    case O3 => 70.0
    case HCHO => 0.002
    case SO2 => 0.02
    case CO => 9.0
  }

  /** One CSV row, restricted to its gas columns; a column may be absent. */
  type Row = map<Gas, real>

  /** `row.get(<gas column>, 0.0)`: an absent gas reads as zero. */
  function Reading(row: Row, g: Gas): (v: real)
    ensures g in row ==> v == row[g]
    ensures v == 0.0 <==> g !in row || row[g] == 0.0
  {
    if g in row then row[g] else 0.0
  }

  /** The share of its limit a gas uses; 1 means the limit is reached. The
      sign of the reading is ignored. */
  function Usage(row: Row, g: Gas): (u: real)
    ensures u >= 0.0
    ensures u == 0.0 <==> Reading(row, g) == 0.0
    ensures u >= 1.0 <==> Abs(Reading(row, g)) >= Limit(g)
  {
    Abs(Reading(row, g)) / Limit(g)
  }

  /** The largest usage over the five gases (the worst gas). */
  function WorstUse(row: Row): (w: real)
    ensures forall g :: Usage(row, g) <= w
    ensures exists g :: w == Usage(row, g)
  {
    var w := Max(Usage(row, NO2), Max(Usage(row, O3), Max(Usage(row, HCHO), Max(Usage(row, SO2), Usage(row, CO)))));
    assert w in {Usage(row, NO2), Usage(row, O3), Usage(row, HCHO), Usage(row, SO2), Usage(row, CO)};
    w
  }

  /** `clamp01`: the point of [0, 1] nearest to `x`. */
  function Clamp01(x: real): (r: real)
    ensures 0.0 <= r <= 1.0
    ensures 0.0 <= x <= 1.0 ==> r == x
    ensures x < 0.0 ==> r == 0.0
    ensures x > 1.0 ==> r == 1.0
  {
    Max(0.0, Min(1.0, x))
  }

  /** The unrounded quality percentage left over by a usage:
      100 for a clean gas, 0 once the limit is reached. */
  function PctFromUse(u: real): (p: real)
    ensures 0.0 <= p <= 100.0
    ensures u <= 0.0 ==> p == 100.0
    ensures u >= 1.0 ==> p == 0.0
  {
    (1.0 - Clamp01(u)) * 100.0
  }

  /** A larger usage never leaves a larger percentage. */
  lemma PctFromUseAntitone(u: real, v: real)
    requires u <= v
    ensures PctFromUse(v) <= PctFromUse(u)
  {
  }

  /** The per-gas percentage reported in `gas_pct`. */
  function GasPct(row: Row, g: Gas): (p: real)
    ensures 0.0 <= p <= 100.0
  {
    Round1Percent(PctFromUse(Usage(row, g)));
    Round1(PctFromUse(Usage(row, g)))
  }

  /** The global percentage before `round(..., 1)`. */
  function AqiPctRaw(row: Row): real {
    PctFromUse(WorstUse(row))
  }

  /** The global percentage `aqi_pct`. */
  function AqiPct(row: Row): (p: real)
    ensures 0.0 <= p <= 100.0
  {
    Round1Percent(AqiPctRaw(row));
    Round1(AqiPctRaw(row))
  }

  /** The five labels, from best to worst. */
  datatype Quality = Excelente | Buena | Moderada | Mala | MuyMala {

    /** The label's text as it appears in the output. */
    function Label(): string {
      match this
      case Excelente => "Excelente"
      case Buena => "Buena"
      case Moderada => "Moderada"
      case Mala => "Mala"
      case MuyMala => "Muy Mala"
    }

    /** The colour the dashboard paints the label in. */
    function Colour(): string {
      match this
      case Excelente => "#00c853"
      case Buena => "#4caf50"
      case Moderada => "#ffb300"
      case Mala => "#ff7043"
      case MuyMala => "#e53935"
    }

    /** Position in the order Muy Mala < Mala < Moderada < Buena < Excelente. */
    function Rank(): nat {
      match this
      case MuyMala => 0
      case Mala => 1
      case Moderada => 2
      case Buena => 3
      case Excelente => 4
    }
  }

  /** Reads a label's text back; `None` for any other string. */
  function ParseLabel(s: string): (q: Option<Quality>)
    ensures q.Some? ==> q.value.Label() == s
  {
    if s == "Excelente" then Some(Excelente)
    else if s == "Buena" then Some(Buena)
    else if s == "Moderada" then Some(Moderada)
    else if s == "Mala" then Some(Mala)
    else if s == "Muy Mala" then Some(MuyMala)
    else None
  }

  /** Every label's text reads back as that label, so the texts are distinct. */
  lemma ParseLabelRoundTrip(q: Quality)
    ensures ParseLabel(q.Label()) == Some(q)
  {
  }

  /** `quality_from_pct`: the five half-open bands of the threshold ladder. */
  function QualityFromPct(pct: real): (q: Quality)
    ensures q == Excelente <==> pct >= 90.0
    ensures q == Buena <==> 75.0 <= pct < 90.0
    ensures q == Moderada <==> 60.0 <= pct < 75.0
    ensures q == Mala <==> 40.0 <= pct < 60.0
    ensures q == MuyMala <==> pct < 40.0
  {
    if pct >= 90.0 then Excelente
    else if pct >= 75.0 then Buena
    else if pct >= 60.0 then Moderada
    else if pct >= 40.0 then Mala
    else MuyMala
  }

  /** A higher percentage never yields a worse label. */
  lemma QualityFromPctMonotone(p: real, p': real)
    requires p <= p'
    ensures QualityFromPct(p).Rank() <= QualityFromPct(p').Rank()
  {
  }

  const Grey: string := "#9e9e9e"

  /** The `COLOR_BY_QUALITY` table, keyed by label text. */
  const ColorByQuality: map<string, string> := map[
    "Excelente" := "#00c853",
    "Buena" := "#4caf50",
    "Moderada" := "#ffb300",
    "Mala" := "#ff7043",
    "Muy Mala" := "#e53935"
  ]

  /** `color_from_quality`: the text of one of the five labels gets that
      label's colour; any other string gets the grey default. */
  function ColorFromQuality(name: string): (c: string)
    ensures ParseLabel(name).Some? ==> c == ParseLabel(name).value.Colour()
    ensures c == Grey <==> ParseLabel(name).None?
  {
    if name in ColorByQuality then ColorByQuality[name] else Grey
  }

  /** No label is painted grey, and distinct labels get distinct colours,
      so the colour alone tells the label. */
  lemma ColourDistinct(q: Quality, q': Quality)
    ensures q.Colour() != Grey
    ensures q.Colour() == q'.Colour() ==> q == q'
  {
  }

  /** What `compute_row_quality` returns. */
  datatype RowQuality = RowQuality(aqiPct: real, quality: string, color: string, gasPct: map<Gas, real>)

  /** `compute_row_quality`. */
  function ComputeRowQuality(row: Row): (r: RowQuality)
    ensures 0.0 <= r.aqiPct <= 100.0
    ensures r.gasPct.Keys == AllGases
    ensures forall g :: g in r.gasPct ==> 0.0 <= r.gasPct[g] <= 100.0
  {
    var aqi := AqiPct(row);
    var quality := QualityFromPct(aqi).Label();
    RowQuality(aqi, quality, ColorFromQuality(quality), map g | g in AllGases :: GasPct(row, g))
  }

  /** Before rounding, the global percentage is the least per-gas
      percentage: the worst gas dominates. */
  lemma {:induction false} WorstGasDominatesRaw(row: Row)
    ensures forall g :: AqiPctRaw(row) <= PctFromUse(Usage(row, g))
    ensures exists g :: AqiPctRaw(row) == PctFromUse(Usage(row, g))
  {
    forall g ensures AqiPctRaw(row) <= PctFromUse(Usage(row, g)) {
      PctFromUseAntitone(Usage(row, g), WorstUse(row));
    }
    var g :| WorstUse(row) == Usage(row, g);
    assert AqiPctRaw(row) == PctFromUse(Usage(row, g));
  }

  /** After rounding as well, `aqi_pct` is the least of the `gas_pct`
      values, and is one of them. */
  lemma WorstGasDominates(row: Row)
    ensures forall g :: g in ComputeRowQuality(row).gasPct ==> ComputeRowQuality(row).aqiPct <= ComputeRowQuality(row).gasPct[g]
    ensures exists g :: g in ComputeRowQuality(row).gasPct && ComputeRowQuality(row).aqiPct == ComputeRowQuality(row).gasPct[g]
  {
    var r := ComputeRowQuality(row);
    WorstGasDominatesRaw(row);
    forall g | g in r.gasPct ensures r.aqiPct <= r.gasPct[g] {
      Round1Monotone(AqiPctRaw(row), PctFromUse(Usage(row, g)));
    }
    var g :| AqiPctRaw(row) == PctFromUse(Usage(row, g));
    assert g in AllGases;
    assert r.aqiPct == r.gasPct[g];
  }

  /** The row's label is the worst of the labels its gases would get on
      their own. */
  lemma RowLabelIsWorstGasLabel(row: Row)
    ensures forall g :: g in AllGases ==> QualityFromPct(AqiPct(row)).Rank() <= QualityFromPct(GasPct(row, g)).Rank()
    ensures exists g :: g in AllGases && QualityFromPct(AqiPct(row)) == QualityFromPct(GasPct(row, g))
  {
    var r := ComputeRowQuality(row);
    WorstGasDominates(row);
    forall g | g in AllGases
      ensures QualityFromPct(AqiPct(row)).Rank() <= QualityFromPct(GasPct(row, g)).Rank()
    {
      assert r.gasPct[g] == GasPct(row, g);
      QualityFromPctMonotone(AqiPct(row), GasPct(row, g));
    }
    var g :| g in r.gasPct && r.aqiPct == r.gasPct[g];
    assert r.gasPct[g] == GasPct(row, g);
  }

  /** Label and colour depend on the row only through `aqi_pct`. */
  lemma LabelDeterminedByAqi(row: Row, row': Row)
    requires AqiPct(row) == AqiPct(row')
    ensures ComputeRowQuality(row).quality == ComputeRowQuality(row').quality == QualityFromPct(AqiPct(row)).Label()
    ensures ComputeRowQuality(row).color == ComputeRowQuality(row').color == ColorFromQuality(QualityFromPct(AqiPct(row)).Label())
  {
  }

  /** Two rows whose gases have the same magnitudes are classified alike. */
  lemma SameMagnitudesSameResult(row: Row, row': Row)
    requires forall g :: Abs(Reading(row, g)) == Abs(Reading(row', g))
    ensures ComputeRowQuality(row) == ComputeRowQuality(row')
  {
    assert forall g :: Usage(row, g) == Usage(row', g);
    assert WorstUse(row) == WorstUse(row');
    var m := map g | g in AllGases :: GasPct(row, g);
    var m' := map g | g in AllGases :: GasPct(row', g);
    assert m == m';
  }

  /** Negating one reading changes nothing. */
  lemma SignDoesNotMatter(row: Row, g: Gas)
    requires g in row
    ensures ComputeRowQuality(row[g := -row[g]]) == ComputeRowQuality(row)
  {
    SameMagnitudesSameResult(row[g := -row[g]], row);
  }

  /** An absent gas counts as clean: it uses none of its limit and the row
      is classified as if the gas read zero. */
  lemma AbsentGasIsClean(row: Row, g: Gas)
    ensures Usage(row - {g}, g) == 0.0
    ensures GasPct(row - {g}, g) == 100.0
    ensures ComputeRowQuality(row - {g}) == ComputeRowQuality(row[g := 0.0])
  {
    assert IsTenth(100.0);
    Round1Exact(100.0);
    SameMagnitudesSameResult(row - {g}, row[g := 0.0]);
  }

  /** Raising the magnitude of readings never improves the percentage or
      the label. */
  lemma {:induction false} MorePollutionNeverBetter(row: Row, row': Row)
    requires forall g :: Abs(Reading(row, g)) <= Abs(Reading(row', g))
    ensures AqiPct(row') <= AqiPct(row)
    ensures QualityFromPct(AqiPct(row')).Rank() <= QualityFromPct(AqiPct(row)).Rank()
  {
    var g' :| WorstUse(row) == Usage(row, g');
    assert Usage(row, g') <= Usage(row', g');
    PctFromUseAntitone(WorstUse(row), WorstUse(row'));
    Round1Monotone(AqiPctRaw(row'), AqiPctRaw(row));
    QualityFromPctMonotone(AqiPct(row'), AqiPct(row));
  }
}
