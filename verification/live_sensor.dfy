/** The live MQ135 bridge of `backend/arduino_live_api.py`: a CO2 reading
    becomes a 0-100 quality index and a three-way status, and the serial
    reader folds the device's lines into the published `current_data`.

    Device I/O, JSON decoding and the background thread stay outside: a
    line arrives as an `Input`, and the decoding of a record is a parameter
    `decode` of type `Decoder`. */
module LiveSensor {
  import opened Options
  import opened Numeric

  /** `sensor_to_quality`: CO2 in ppm to a 0-100 index, 100 at or below
      350 ppm, 0 at or above 2000 ppm, linear in between. */
  function SensorToQuality(ppm: real): (q: real)
    ensures 0.0 <= q <= 100.0
    ensures ppm <= 350.0 ==> q == 100.0
    ensures ppm >= 2000.0 ==> q == 0.0
  {
    var q := (2000.0 - ppm) / (2000.0 - 350.0) * 100.0;
    Max(0.0, Min(100.0, q))
  }

  /** The ppm at which the index takes the value `q`; 16.5 ppm per point. */
  function PpmForQuality(q: real): real {
    2000.0 - q * 16.5
  }

  /** On the linear stretch `sensor_to_quality` and `PpmForQuality` undo
      each other. */
  lemma SensorToQualityInverse(ppm: real, q: real)
    ensures 0.0 <= q <= 100.0 ==> SensorToQuality(PpmForQuality(q)) == q
    ensures 350.0 <= ppm <= 2000.0 ==> PpmForQuality(SensorToQuality(ppm)) == ppm
  {
  }

  /** More CO2 never means a better index. */
  lemma SensorToQualityAntitone(ppm: real, ppm': real)
    requires ppm <= ppm'
    ensures SensorToQuality(ppm') <= SensorToQuality(ppm)
  {
  }

  /** The value of the `status` field. */
  datatype Status = Bueno | Regular | Malo | Desconocido {

    /** Order of the three classified statuses, Malo < Regular < Bueno. */
    function Rank(): int {
      match this
      case Desconocido => -1
      case Malo => 0
      case Regular => 1
      case Bueno => 2
    }
  }

  /** The status rule applied to a (rounded) index. */
  function StatusOf(q: real): (s: Status)
    ensures s == Bueno <==> q >= 65.0
    ensures s == Regular <==> 40.0 <= q < 65.0
    ensures s == Malo <==> q < 40.0
    ensures s != Desconocido
  {
    if q >= 65.0 then Bueno else if q >= 40.0 then Regular else Malo
  }

  /** A higher index never yields a worse status. */
  lemma StatusOfMonotone(q: real, q': real)
    requires q <= q'
    ensures StatusOf(q).Rank() <= StatusOf(q').Rank()
  {
  }

  /** The published index `round(sensor_to_quality(co2), 1)`. */
  function ReadingQuality(ppm: real): (q: real)
    ensures 0.0 <= q <= 100.0
    ensures IsTenth(q)
  {
    Round1Percent(SensorToQuality(ppm));
    Round1(SensorToQuality(ppm))
  }

  /** Seen from the raw CO2 value, the status rule on the rounded index
      has fixed ppm cut-offs: Bueno up to 928.325 ppm, Regular up to
      1340.825 ppm, Malo above (the index reaches 65.0 once it is 64.95
      before rounding, and 40.0 once it is 39.95). */
  lemma StatusCutOffsInPpm(ppm: real)
    ensures StatusOf(ReadingQuality(ppm)) == Bueno <==> ppm <= 928.325
    ensures StatusOf(ReadingQuality(ppm)) == Regular <==> 928.325 < ppm <= 1340.825
    ensures StatusOf(ReadingQuality(ppm)) == Malo <==> ppm > 1340.825
  {
    var raw := SensorToQuality(ppm);
    Round1AtLeastEven(raw, 650);
    Round1AtLeastEven(raw, 400);
    assert ReadingQuality(ppm) >= 65.0 <==> raw * 10.0 >= 649.5;
    assert ReadingQuality(ppm) >= 40.0 <==> raw * 10.0 >= 399.5;
  }

  /** More CO2 never yields a better status. */
  lemma StatusAntitoneInPpm(ppm: real, ppm': real)
    requires ppm <= ppm'
    ensures StatusOf(ReadingQuality(ppm')).Rank() <= StatusOf(ReadingQuality(ppm)).Rank()
  {
    SensorToQualityAntitone(ppm, ppm');
    Round1Monotone(SensorToQuality(ppm'), SensorToQuality(ppm));
    StatusOfMonotone(ReadingQuality(ppm'), ReadingQuality(ppm));
  }

  /** `current_data`. */
  datatype LiveState = LiveState(quality: real, status: Status, updated: bool)

  /** The value `current_data` starts with. */
  const Initial: LiveState := LiveState(0.0, Desconocido, false)

  /** The state published for a record carrying `ppm`. */
  function Publish(ppm: real): (s: LiveState)
    ensures s.updated
    ensures 0.0 <= s.quality <= 100.0
    ensures s.status == StatusOf(s.quality)
  {
    var q := ReadingQuality(ppm);
    LiveState(q, StatusOf(q), true)
  }

  /** The characters Python's `str.strip()` removes (`str.isspace`): the
      blank, tab and line-ending characters count, while no printable ASCII
      character other than the blank does, so `{` is never stripped. */
  function IsSpace(c: char): (b: bool)
    ensures c == ' ' || c == '\t' || c == '\n' || c == '\r' || c == '\U{000B}' || c == '\U{000C}' ==> b
    ensures '!' <= c <= '~' ==> !b
  {
    var n := c as int;
    n == 0x20 || 0x09 <= n <= 0x0D || 0x1C <= n <= 0x1F || n == 0x85 || n == 0xA0
    || n == 0x1680 || 0x2000 <= n <= 0x200A || n == 0x2028 || n == 0x2029
    || n == 0x202F || n == 0x205F || n == 0x3000
  }

  /** The number of whitespace characters `s` starts with. */
  function LeadingSpaces(s: string): (n: nat)
    ensures n <= |s|
    ensures forall k :: 0 <= k < n ==> IsSpace(s[k])
    ensures n < |s| ==> !IsSpace(s[n])
  {
    if |s| == 0 || !IsSpace(s[0]) then 0 else 1 + LeadingSpaces(s[1..])
  }

  /** The number of whitespace characters `s` ends with. */
  function TrailingSpaces(s: string): (n: nat)
    ensures n <= |s|
    ensures forall k :: |s| - n <= k < |s| ==> IsSpace(s[k])
    ensures n < |s| ==> !IsSpace(s[|s| - n - 1])
  {
    if |s| == 0 || !IsSpace(s[|s| - 1]) then 0 else 1 + TrailingSpaces(s[..|s| - 1])
  }

  /** `str.strip()`: the infix of `s` left after removing whitespace at
      both ends, as much of it as there is. */
  function Strip(s: string): (t: string)
    ensures exists i, j :: 0 <= i <= j <= |s| && t == s[i..j]
                          && (forall k :: 0 <= k < i ==> IsSpace(s[k]))
                          && (forall k :: j <= k < |s| ==> IsSpace(s[k]))
    ensures |t| > 0 ==> !IsSpace(t[0]) && !IsSpace(t[|t| - 1])
    ensures |t| == 0 <==> forall k :: 0 <= k < |s| ==> IsSpace(s[k])
    ensures |t| > 0 ==> t[0] == s[LeadingSpaces(s)]
  {
    var i := LeadingSpaces(s);
    var rest := s[i..];
    var j := i + |rest| - TrailingSpaces(rest);
    assert rest[..|rest| - TrailingSpaces(rest)] == s[i..j];
    assert forall k :: j <= k < |s| ==> s[k] == rest[k - i];
    s[i..j]
  }

  /** What `json.loads` followed by `float(data.get("CO2", 0.0))` makes of
      a line: either an exception, or an object whose `CO2` field is
      absent or converts to a number. */
  datatype Payload = Malformed | Object(co2: Option<real>)

  type Decoder = string -> Payload

  /** One iteration of the read loop: an exception raised by `readline`,
      or the text of a line once invalid UTF-8 bytes have been dropped
      (that decoding never raises). */
  datatype Input = ReadFailed | Received(text: string)

  /** The first character of `text` that is not whitespace opens a record. */
  predicate OpensRecord(text: string) {
    LeadingSpaces(text) < |text| && text[LeadingSpaces(text)] == '{'
  }

  /** The CO2 value an input contributes, if it is a well-formed record:
      its first non-blank character must be `{`, and decoding the stripped
      line must succeed; an absent `CO2` counts as 0. */
  function RecordPpm(decode: Decoder, input: Input): (p: Option<real>)
    ensures input.ReadFailed? ==> p.None?
    ensures p.Some? <==> input.Received? && OpensRecord(input.text) && decode(Strip(input.text)).Object?
    ensures p.Some? && decode(Strip(input.text)).co2.Some? ==> p.value == decode(Strip(input.text)).co2.value
    ensures p.Some? && decode(Strip(input.text)).co2.None? ==> p.value == 0.0
  {
    match input
    case ReadFailed => None
    case Received(text) =>
      var line := Strip(text);
      if |line| == 0 || line[0] != '{' then None
      else match decode(line)
        case Malformed => None
        case Object(co2) => Some(co2.GetOr(0.0))
  }

  /** The body of the `serial_reader` loop as a transition on `current_data`:
      noise, failures and malformed records keep the state; a record
      replaces it wholesale. */
  function Step(decode: Decoder, s: LiveState, input: Input): (s': LiveState)
    ensures RecordPpm(decode, input).None? ==> s' == s
    ensures RecordPpm(decode, input).Some? ==>
              && s'.updated
              && s'.quality == ReadingQuality(RecordPpm(decode, input).value)
              && 0.0 <= s'.quality <= 100.0
              && s'.status == StatusOf(s'.quality)
  {
    match RecordPpm(decode, input)
    case None => s
    case Some(ppm) => Publish(ppm)
  }

  /** The `while True` loop: the state after consuming `inputs` in order.
      It is the starting state, or one published for some record. */
  function Run(decode: Decoder, s: LiveState, inputs: seq<Input>): (r: LiveState)
    ensures r == s || (r.updated && 0.0 <= r.quality <= 100.0 && r.status == StatusOf(r.quality))
    decreases |inputs|
  {
    if |inputs| == 0 then s
    else Step(decode, Run(decode, s, inputs[..|inputs| - 1]), inputs[|inputs| - 1])
  }

  /** A line that is all blank, or whose first non-blank character is not
      `{`, leaves the state as it is. */
  lemma NoiseKeepsState(decode: Decoder, s: LiveState, text: string)
    requires !OpensRecord(text)
    ensures Step(decode, s, Received(text)) == s
  {
  }

  /** A read error or a line whose decoding raises keeps the state. */
  lemma FailureKeepsState(decode: Decoder, s: LiveState, text: string)
    requires decode(Strip(text)).Malformed?
    ensures Step(decode, s, ReadFailed) == s
    ensures Step(decode, s, Received(text)) == s
  {
  }

  /** A record without `CO2` reads as 0 ppm: index 100, status Bueno. */
  lemma MissingCo2IsBest(decode: Decoder, s: LiveState, text: string)
    requires OpensRecord(text)
    requires decode(Strip(text)) == Object(None)
    ensures Step(decode, s, Received(text)) == LiveState(100.0, Bueno, true)
  {
    assert IsTenth(100.0);
    Round1Exact(100.0);
  }

  /** A worked record: 450 ppm, surrounded by blanks and a line ending,
      publishes index 93.9 (93.93... before rounding) with status Bueno. */
  lemma RecordAt450Ppm(decode: Decoder, s: LiveState)
    requires decode("{\"CO2\": 450}") == Object(Some(450.0))
    ensures Step(decode, s, Received("  {\"CO2\": 450}\r\n")) == LiveState(93.9, Bueno, true)
  {
    StripExample();
    QualityAt450Ppm();
  }

  lemma StripExample()
    ensures Strip("  {\"CO2\": 450}\r\n") == "{\"CO2\": 450}"
  {
    var text := "  {\"CO2\": 450}\r\n";
    assert LeadingSpaces(text[2..]) == 0;
    assert LeadingSpaces(text) == 2;
    var rest := text[2..];
    assert TrailingSpaces(rest[..|rest| - 2]) == 0;
    assert TrailingSpaces(rest) == 2;
  }

  lemma QualityAt450Ppm()
    ensures ReadingQuality(450.0) == 93.9
  {
    var raw := SensorToQuality(450.0);
    assert raw * 10.0 == 15500.0 / 16.5;
    assert 939.0 <= raw * 10.0 < 940.0;
    assert (raw * 10.0).Floor == 939;
    assert RoundedTenths(raw) == 939;
  }

  /** The states the loop can be in: the initial one, or one published for
      a record, whose index is a rounded value in [0, 100] and whose status
      agrees with it. */
  predicate WellFormed(s: LiveState) {
    s == Initial
    || (s.updated && 0.0 <= s.quality <= 100.0 && IsTenth(s.quality)
        && s.status != Desconocido && s.status == StatusOf(s.quality))
  }

  /** Every reachable state is well formed, whatever lines arrive. */
  lemma {:induction false} RunWellFormed(decode: Decoder, s: LiveState, inputs: seq<Input>)
    requires WellFormed(s)
    ensures WellFormed(Run(decode, s, inputs))
    decreases |inputs|
  {
    if |inputs| > 0 {
      RunWellFormed(decode, s, inputs[..|inputs| - 1]);
    }
  }

  /** Consuming `xs` and then `ys` is consuming `xs + ys`. */
  lemma {:induction false} RunAppend(decode: Decoder, s: LiveState, xs: seq<Input>, ys: seq<Input>)
    ensures Run(decode, s, xs + ys) == Run(decode, Run(decode, s, xs), ys)
    decreases |ys|
  {
    if |ys| == 0 {
      assert xs + ys == xs;
    } else {
      var ys' := ys[..|ys| - 1];
      assert (xs + ys)[..|xs + ys| - 1] == xs + ys';
      RunAppend(decode, s, xs, ys');
    }
  }

  /** Without a well-formed record the state never changes. */
  lemma {:induction false} RunWithoutRecords(decode: Decoder, s: LiveState, inputs: seq<Input>)
    requires forall i :: 0 <= i < |inputs| ==> RecordPpm(decode, inputs[i]).None?
    ensures Run(decode, s, inputs) == s
    decreases |inputs|
  {
    if |inputs| > 0 {
      RunWithoutRecords(decode, s, inputs[..|inputs| - 1]);
    }
  }

  /** The last well-formed record decides the state: the state is the one
      published for it, whatever came before. */
  lemma {:induction false} LastRecordWins(decode: Decoder, s: LiveState, inputs: seq<Input>, i: nat)
    requires i < |inputs| && RecordPpm(decode, inputs[i]).Some?
    requires forall j :: i < j < |inputs| ==> RecordPpm(decode, inputs[j]).None?
    ensures Run(decode, s, inputs) == Publish(RecordPpm(decode, inputs[i]).value)
    decreases |inputs|
  {
    if i < |inputs| - 1 {
      LastRecordWins(decode, s, inputs[..|inputs| - 1], i);
    }
  }

  /** Starting from the initial state, `updated` is set exactly when some
      well-formed record has arrived; until then the state is the initial
      one. */
  lemma {:induction false} UpdatedIffRecord(decode: Decoder, inputs: seq<Input>)
    ensures Run(decode, Initial, inputs).updated <==> exists i :: 0 <= i < |inputs| && RecordPpm(decode, inputs[i]).Some?
    ensures !Run(decode, Initial, inputs).updated ==> Run(decode, Initial, inputs) == Initial
    decreases |inputs|
  {
    if |inputs| > 0 {
      var init := inputs[..|inputs| - 1];
      UpdatedIffRecord(decode, init);
      if exists i :: 0 <= i < |inputs| && RecordPpm(decode, inputs[i]).Some? {
        var i :| 0 <= i < |inputs| && RecordPpm(decode, inputs[i]).Some?;
        if i < |inputs| - 1 {
          assert init[i] == inputs[i];
        }
      } else {
        forall i | 0 <= i < |init| ensures RecordPpm(decode, init[i]).None? {
          assert init[i] == inputs[i];
        }
      }
    }
  }
}
