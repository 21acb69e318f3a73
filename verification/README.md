# Air-quality classifiers of the Saltillo Space Apps backend, in Dafny

This project models the two pure cores of the backend:

- **The batch gas classifier** (`backend/load_data.py`, module `GasQuality`).
  Each CSV row carries readings for NO2, O3, HCHO, SO2 and CO. Every reading
  is taken by magnitude as a share ("usage") of a fixed limit, where an absent
  column reads as 0. The largest usage is clamped to [0, 1] and turned into a
  0-100 "quality %" (`aqi_pct`). That percentage goes through a five-step
  ladder to a label (Excelente, Buena, Moderada, Mala, Muy Mala) and then
  through a colour table with a grey default. Per-gas percentages (`gas_pct`)
  are computed the same way.
- **The live MQ135 bridge** (`backend/arduino_live_api.py`, module
  `LiveSensor`). `sensor_to_quality` is a clamped linear map from CO2 ppm to a
  0-100 index. It is rounded to one decimal and classified as Bueno (>= 65),
  Regular (>= 40) or Malo. The body of the `serial_reader` loop is modelled as
  a pure transition `Step(decode, state, input)` on `current_data`. `Run`
  folds that transition over a sequence of inputs.

`Numeric` holds the shared helpers: `abs`/`min`/`max` and Python's
`round(x, 1)`. Rounding is taken on exact reals as round-half-to-even at one
decimal. The model proves the facts the rest of the project needs about it:
it is monotone, it moves a value by at most 0.05, it yields whole tenths, and
it keeps [0, 100].

Some things stay abstract:

- Decoding a line (`json.loads`, then `float(data.get("CO2", 0.0))`) is a
  parameter `decode: string -> Payload`. It either raises (`Malformed`) or
  yields an object whose `CO2` is absent or numeric.
- An exception raised by `readline` is the input `ReadFailed`. UTF-8 decoding
  ignores invalid bytes and never raises, so `Received(text)` carries the text
  left after they are dropped.
- Stripping (`str.strip()`, with Python's `str.isspace` set) and the
  "starts with `{`" test are modelled concretely.

The classification policy here is the one `arduino_live_api.py` implements:
a 0-100 index interpolated between 350 and 2000 ppm, thresholds 65/40, and
the Spanish labels Bueno/Regular/Malo/Desconocido. Another revision of this
service classifies raw ppm at 720/1137, uses English labels and keeps a
durable log; `arduino_live_api.py` as modelled here does none of that, and
the model follows the code.

`NanCells` takes the gas classifier one step closer to pandas: an empty CSV
cell is NaN, not a missing key. It models how Python's `abs`, `max`, `min`
and `clamp01` treat NaN, and records the consequence under "## Findings".
`Options` holds the optional value used for absent dictionary keys.

## Model

| member | source | states |
|---|---|---|
| `GasQuality.Reading` | backend/load_data.py:59-63 | `row.get(col, 0.0)`: a present column gives its value; the reading is zero exactly when the column is absent or holds zero |
| `GasQuality.Limit` | backend/load_data.py:14-20 | every gas has a positive limit, so a usage is always defined |
| `GasQuality.Usage` | backend/load_data.py:59-63 | usage is non-negative, is zero exactly when the reading is zero (or absent), and reaches 1 exactly when the reading's magnitude reaches the gas's limit |
| `GasQuality.WorstUse` | backend/load_data.py:65-66 | the worst usage is at least every gas's usage and equals the usage of some gas |
| `GasQuality.Clamp01` | backend/load_data.py:41-42 | `clamp01` lands in [0, 1], is the identity on [0, 1], and sends values below 0 to 0 and above 1 to 1 |
| `GasQuality.PctFromUse` | backend/load_data.py:69 | the unrounded percentage lies in [0, 100]; it is 100 for zero usage and 0 once the limit is used up |
| `GasQuality.PctFromUseAntitone` | backend/load_data.py:69 | a larger usage never gives a larger percentage |
| `GasQuality.GasPct` | backend/load_data.py:74-80 | every per-gas `*_pct` lies in [0, 100] |
| `GasQuality.AqiPct` | backend/load_data.py:66-69 | the global `aqi_pct` lies in [0, 100] |
| `GasQuality.ParseLabel` | backend/load_data.py:32-36 | a string read back as a label is that label's text |
| `GasQuality.ParseLabelRoundTrip` | backend/load_data.py:32-36 | each of the five label texts reads back as its own label, so the texts are distinct |
| `GasQuality.QualityFromPct` | backend/load_data.py:30-36 | `quality_from_pct` is total and follows the ladder in both directions: >=90 Excelente, [75,90) Buena, [60,75) Moderada, [40,60) Mala, <40 Muy Mala |
| `GasQuality.QualityFromPctMonotone` | backend/load_data.py:30-36 | a higher percentage never yields a worse label in the order Muy Mala < Mala < Moderada < Buena < Excelente |
| `GasQuality.ColorFromQuality` | backend/load_data.py:22-39 | the text of one of the five labels gets that label's colour; the result is `#9e9e9e` exactly when the string is not one of the five labels |
| `GasQuality.ColourDistinct` | backend/load_data.py:22-28 | no label is coloured grey and distinct labels get distinct colours, so the colour tells the label |
| `GasQuality.ComputeRowQuality` | backend/load_data.py:57-81 | `aqi_pct` lies in [0, 100]; `gas_pct` has exactly the five gases, each in [0, 100] |
| `GasQuality.WorstGasDominatesRaw` | backend/load_data.py:59-69 | before rounding, the global percentage is at most every per-gas percentage and equals one of them: it is their minimum |
| `GasQuality.WorstGasDominates` | backend/load_data.py:65-80 | after rounding too, `aqi_pct` is at most every `gas_pct` entry and equals one of them |
| `GasQuality.RowLabelIsWorstGasLabel` | backend/load_data.py:65-80 | the row's label is the worst of the labels the individual gas percentages would get |
| `GasQuality.LabelDeterminedByAqi` | backend/load_data.py:69-71 | rows with the same `aqi_pct` get the same label and colour, namely `quality_from_pct` of it and then `color_from_quality` |
| `GasQuality.SameMagnitudesSameResult` | backend/load_data.py:59-63 | two rows whose gases have equal magnitudes give identical results |
| `GasQuality.SignDoesNotMatter` | backend/load_data.py:59-63 | negating a gas value leaves the whole result unchanged |
| `GasQuality.AbsentGasIsClean` | backend/load_data.py:59-80 | an absent gas has usage 0 and percentage 100, and the row is classified as if that gas read 0 |
| `GasQuality.MorePollutionNeverBetter` | backend/load_data.py:59-70 | raising gas magnitudes never raises `aqi_pct` and never improves the label |
| `Numeric.RoundedTenths` | backend/arduino_live_api.py:73 | `round(x, 1)` picks a whole number of tenths within half a tenth of `x` |
| `Numeric.Round1` | backend/arduino_live_api.py:73 | `round(x, 1)` is a whole number of tenths within 0.05 of `x` |
| `Numeric.Round1Monotone` | backend/arduino_live_api.py:73 | rounding never reverses the order of two values |
| `Numeric.RoundedTenthsMonotone` | backend/arduino_live_api.py:73 | the chosen number of tenths is monotone in `x` |
| `Numeric.Round1Exact` | backend/load_data.py:69 | a value that is already a whole number of tenths is unchanged by rounding |
| `Numeric.Round1Within` | backend/load_data.py:69 | rounding keeps a value inside any interval whose ends are whole tenths |
| `Numeric.Round1Percent` | backend/load_data.py:69 | rounding keeps a percentage in [0, 100] |
| `Numeric.Round1Min` | backend/load_data.py:66-69 | rounding commutes with `min`, so the minimum survives rounding |
| `Numeric.Round1AtLeastEven` | backend/arduino_live_api.py:73-74 | the rounded value reaches an even number `n` of tenths exactly when the raw value is at least `n - 1/2` tenths |
| `LiveSensor.SensorToQuality` | backend/arduino_live_api.py:38-44 | the index lies in [0, 100]; at most 350 ppm gives 100 and at least 2000 ppm gives 0 |
| `LiveSensor.SensorToQualityInverse` | backend/arduino_live_api.py:43-44 | between 350 and 2000 ppm the index is exactly invertible at 16.5 ppm per point |
| `LiveSensor.SensorToQualityAntitone` | backend/arduino_live_api.py:39-44 | more CO2 never gives a higher index |
| `LiveSensor.StatusOf` | backend/arduino_live_api.py:74 | the status is Bueno exactly when q >= 65, Regular exactly when 40 <= q < 65, Malo exactly when q < 40; never Desconocido |
| `LiveSensor.StatusOfMonotone` | backend/arduino_live_api.py:74 | a higher index never gives a worse status |
| `LiveSensor.ReadingQuality` | backend/arduino_live_api.py:72-73 | the published index is a whole number of tenths in [0, 100] |
| `LiveSensor.StatusCutOffsInPpm` | backend/arduino_live_api.py:72-74 | in terms of raw ppm the status is Bueno up to 928.325, Regular up to 1340.825, and Malo above |
| `LiveSensor.StatusAntitoneInPpm` | backend/arduino_live_api.py:72-74 | more CO2 never gives a better status |
| `LiveSensor.Publish` | backend/arduino_live_api.py:72-80 | a record publishes `updated = true`, an index in [0, 100] and the status the rule assigns to that index |
| `LiveSensor.IsSpace` | backend/arduino_live_api.py:67 | the whitespace `strip()` removes includes blank, tab and the line-ending characters, and no printable ASCII character other than the blank (so never `{`) |
| `LiveSensor.LeadingSpaces` | backend/arduino_live_api.py:67 | counts exactly the whitespace prefix of a line |
| `LiveSensor.TrailingSpaces` | backend/arduino_live_api.py:67 | counts exactly the whitespace suffix of a line |
| `LiveSensor.Strip` | backend/arduino_live_api.py:67 | the stripped line is an infix of the line with only whitespace removed on either side; it is empty exactly when the line is all whitespace, otherwise it starts and ends with non-whitespace, and its first character is the line's first non-whitespace character |
| `LiveSensor.RecordPpm` | backend/arduino_live_api.py:67-72 | an input carries a reading exactly when it is a received line whose first non-whitespace character is `{` and whose stripped form decodes without error; the reading is the decoded `CO2`, or 0 when the field is absent |
| `LiveSensor.Step` | backend/arduino_live_api.py:66-87 | an input without a reading leaves the state unchanged; a reading sets `updated`, the index `round(sensor_to_quality(co2), 1)` in [0, 100], and the status the rule gives that index |
| `LiveSensor.NoiseKeepsState` | backend/arduino_live_api.py:68-69 | a line that is all whitespace, or whose first non-whitespace character is not `{`, leaves the state unchanged |
| `LiveSensor.FailureKeepsState` | backend/arduino_live_api.py:84-87 | a read error or a line whose decoding raises leaves the state unchanged |
| `LiveSensor.MissingCo2IsBest` | backend/arduino_live_api.py:72-74 | a record without `CO2` counts as 0 ppm and publishes index 100, status Bueno |
| `LiveSensor.RecordAt450Ppm` | backend/arduino_live_api.py:67-80 | a padded line holding 450 ppm publishes index 93.9 with status Bueno |
| `LiveSensor.StripExample` | backend/arduino_live_api.py:67 | stripping removes the leading blanks and the trailing line ending of a record line |
| `LiveSensor.QualityAt450Ppm` | backend/arduino_live_api.py:43-73 | 450 ppm gives the rounded index 93.9 |
| `LiveSensor.Run` | backend/arduino_live_api.py:61-87 | after any sequence of inputs the state is the starting one or a published one: `updated`, an index in [0, 100] and the matching status |
| `LiveSensor.RunWellFormed` | backend/arduino_live_api.py:32-87 | after any sequence of inputs the state is either the initial `{0, Desconocido, false}` or has `updated`, an index in [0, 100] and the matching status |
| `LiveSensor.RunAppend` | backend/arduino_live_api.py:61-87 | consuming two batches of lines one after the other is consuming them together |
| `LiveSensor.RunWithoutRecords` | backend/arduino_live_api.py:61-87 | without a well-formed record the state never changes |
| `LiveSensor.LastRecordWins` | backend/arduino_live_api.py:61-87 | the last well-formed record alone decides the final state |
| `LiveSensor.UpdatedIffRecord` | backend/arduino_live_api.py:32-80 | from the initial state, `updated` is true exactly when some well-formed record has arrived; until then the state is the initial one |
| `NanCells.PyMax` | backend/load_data.py:66 | Python's `max` on floats: the usual maximum of two numbers; a NaN first argument wins and a NaN second argument is skipped |
| `NanCells.PyMin` | backend/load_data.py:42 | Python's `min` on floats: the usual minimum of two numbers; a NaN first argument wins and a NaN second argument is skipped |
| `NanCells.RawReading` | backend/load_data.py:59-63 | `row.get(col, 0.0)` on a pandas row is NaN exactly for a NaN cell; otherwise it is the `GasQuality.Reading` of the row with NaN cells read as missing |
| `NanCells.RawUsage` | backend/load_data.py:59-63 | `abs(v) / limit` is NaN exactly for a NaN cell; otherwise it is the `GasQuality.Usage` of the row with NaN cells read as missing |
| `NanCells.RawClamp01` | backend/load_data.py:41-42 | `clamp01` of a number is the usual clamp; `clamp01(NaN)` is 1.0 |
| `NanCells.RawWorstUse` | backend/load_data.py:65-66 | the five-way `max` is NaN exactly when the NO2 usage is NaN; otherwise it is at least every numeric usage, NaN ones skipped; it is always one of the five usages |
| `NanCells.PyMaxFive` | backend/load_data.py:66 | a left-to-right `max` of five floats is NaN exactly when its first item is, otherwise bounds every numeric item, and is always one of the items |
| `NanCells.RawGasPct` | backend/load_data.py:74-80 | a `gas_pct` entry as written lies in [0, 100]; it is 0 for a NaN cell and otherwise the `GasQuality.GasPct` of the row with NaN cells read as missing |
| `NanCells.RawAqiPct` | backend/load_data.py:65-69 | `aqi_pct` as written lies in [0, 100] and is 0 whenever the NO2 cell is NaN |
| `NanCells.AsWrittenDominatesNumbers` | backend/load_data.py:65-80 | as written, `aqi_pct` is still at most the percentage of every gas whose cell is a number; only NaN gases escape it |
| `NanCells.AsWrittenWithoutNaN` | backend/load_data.py:59-80 | on rows without NaN the code's percentages are exactly `GasQuality.AqiPct` and `GasQuality.GasPct` |
| `NanCells.NaNGasIgnoredByAqi` | backend/load_data.py:59-79 | a NaN O3 cell reports O3 at 0 % while `aqi_pct` is 100 % |
| `NanCells.NaNInFirstPlaceIsWorst` | backend/load_data.py:59-69 | a NaN NO2 cell, first in the `max`, makes `aqi_pct` 0 % |
| `NanCells.DropNaN` | backend/load_data.py:59-63 | with NaN cells read as missing, `row.get(col, 0.0)` gives 0.0 for a NaN cell and the number for a numeric one, and no column is added |
| `NanCells.ComputeRowQualityCorrected` | backend/load_data.py:57-81 | with NaN read as missing, `aqi_pct` is the least `gas_pct` entry and one of them, and a NaN gas reports 100 % |
| `NanCells.NaNCellsReadClean` | backend/load_data.py:59-63 | once dropped, a NaN gas has percentage 100 |
| `NanCells.CorrectedMatchesCodeWithoutNaN` | backend/load_data.py:57-80 | on rows without NaN the corrected classifier gives the code's own `aqi_pct` and `gas_pct` |

## Findings

| source | as written | input that shows it | evidently intended | confidence | as-written member | corrected member |
|---|---|---|---|---|---|---|
| backend/load_data.py:59-80 | an empty CSV cell reaches `compute_row_quality` as NaN. `clamp01(NaN)` is 1.0, so that gas reports 0 %. The five-way `max` skips a NaN unless it is the first argument, so `aqi_pct` ignores the gas, or is forced to 0 when the gas is NO2 | a row whose only gas cell is an empty O3: `o3_pct` 0.0, `aqi_pct` 100.0; a row whose only gas cell is an empty NO2: `aqi_pct` 0.0 | a missing value counts as clean, as the `0.0` default of `row.get` intends, and the worst gas dominates ("peor gas domina") | medium, not executed | `NanCells.NaNGasIgnoredByAqi`, `NanCells.RawWorstUse` | `NanCells.ComputeRowQualityCorrected` |

## Left out

- `public/data/Conexion.py`: a database connect-and-print script with no logic.
- Opening the serial port, the 2-second settle sleep, the idle loop while the port is missing, `readline` and UTF-8 decoding: device I/O and timing. A `readline` exception is the input `ReadFailed`; invalid UTF-8 bytes are dropped before the text reaches `Received`, and the model does not say which; the idle loop consumes no input.
- `json.loads` and `float(...)`: library parsing, abstracted as the `decode` parameter. The model does not say which texts decode to what.
- The background thread and the global `current_data`: the state is a value threaded through `Step`, so an update is a single replacement.
- The FastAPI app, CORS middleware, and the `/live` and `/` endpoints: they return the state or a static dictionary.
- The progress `print` inside the loop: console output only.
- `read_csv`, date normalisation, picking the latest row per zone, and writing the JSON files in `main`: pandas and file I/O.
- The raw-ppm thresholds 720/1137, the durable log and its tail reader, and the English labels: `arduino_live_api.py` has none of them.
- Floating point: all arithmetic is on exact reals. Infinities and binary representation are not modelled, so neither are the rounding quirks of `round` on binary floats. NaN is modelled only in `NanCells`, for the gas cells of a row.
- GasQuality.WorstGasDominates: holds only for rows without NaN cells. Pandas reads an empty cell as NaN, and `row.get` returns it. `NanCells.NaNGasIgnoredByAqi` shows a row with an empty O3 cell where `aqi_pct` exceeds `o3_pct`.
- GasQuality.AbsentGasIsClean: "missing counts as clean" holds for an absent column, not for a NaN cell. A NaN gas reports 0 % as written, as `NanCells.NaNGasIgnoredByAqi` shows.
- LiveSensor.Step: the CO2 value is assumed to be a finite number. A NaN or infinite `CO2` from `float(...)` is not modelled.
- Non-gas columns of a row (zone, coordinates, timestamp) and the `*_pct` key names: `gas_pct` is keyed by the gas itself.
