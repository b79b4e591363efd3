/**
 * Weather-station records and the three judgements made on them: the
 * wind-speed correction, the completeness test and the acceptance test of a
 * station's day of records.
 *
 * A record is a JSON object seen as a map from field to text; a field the
 * record lacks reads as the empty string, as JSON's optString gives it.
 */
module Records {
  import opened Wrappers

  /** The record fields the station code reads. */
  datatype Field =
    | StationId | Date | Time | Latitude | Longitude | WindSpeed
    | AirTemperature | DewpointTemperature | AvgAirTemperature
    | RelativeHumidity | MinTemperature | MaxTemperature | SolarRadiation

  type Record = map<Field, string>

  /** The text of field f, or "" when the record has none. */
  function Opt(r: Record, f: Field): string
  {
    if f in r then r[f] else ""
  }

  /** Text to number, as Double.parseDouble does it; None stands for a NumberFormatException. */
  type Parser = string -> Option<real>

  /** The exception that aborts the wind-speed correction. */
  datatype ParseError = NumberFormat(text: string)

  /** The lowest wind speed kept, as written into a corrected record. */
  const MinWindSpeedText: string := "0.3"
  const MinWindSpeed: real := 0.3
  /** Records whose wind speed is above this are dropped. */
  const MaxWindSpeed: real := 31.0

  /** What the correction makes of one record whose wind speed reads v. */
  function WindFix(r: Record, v: real): seq<Record>
  {
    if v < MinWindSpeed then [r[WindSpeed := MinWindSpeedText]]
    else if v > MaxWindSpeed then []
    else [r]
  }

  /**
   * The wind-speed correction of a list of records, in order: a slow record is
   * raised to the minimum, a fast one is dropped, the others are kept; the
   * first wind speed that does not parse aborts the whole correction.
   */
  function WindCorrected(rs: seq<Record>, parse: Parser): Result<seq<Record>, ParseError>
  {
    if rs == [] then Success([])
    else
      match WindCorrected(rs[..|rs| - 1], parse)
      case Failure(e) => Failure(e)
      case Success(done) =>
        var text := Opt(rs[|rs| - 1], WindSpeed);
        match parse(text)
        case None => Failure(NumberFormat(text))
        case Some(v) => Success(done + WindFix(rs[|rs| - 1], v))
  }

  /** The wind speed of a record parses. */
  predicate WindParses(r: Record, parse: Parser)
  {
    parse(Opt(r, WindSpeed)).Some?
  }

  /** The correction succeeds exactly when every record's wind speed parses. */
  lemma {:induction false} WindCorrectedSucceeds(rs: seq<Record>, parse: Parser)
    ensures WindCorrected(rs, parse).Success? <==> forall i :: 0 <= i < |rs| ==> WindParses(rs[i], parse)
  {
    if rs != [] {
      var init := rs[..|rs| - 1];
      WindCorrectedSucceeds(init, parse);
      assert forall i :: 0 <= i < |init| ==> init[i] == rs[i];
    }
  }

  /**
   * The correction works record by record: a list splits into two parts whose
   * corrections, one after the other, make the correction of the whole, so the
   * surviving records keep their order.
   */
  lemma {:induction false} WindCorrectedAppend(a: seq<Record>, b: seq<Record>, parse: Parser)
    ensures WindCorrected(a + b, parse).Success?
        <==> WindCorrected(a, parse).Success? && WindCorrected(b, parse).Success?
    ensures WindCorrected(a + b, parse).Success?
        ==> WindCorrected(a + b, parse).value == WindCorrected(a, parse).value + WindCorrected(b, parse).value
    decreases |b|
  {
    if b == [] {
      assert a + b == a;
    } else {
      var init, last := b[..|b| - 1], b[|b| - 1];
      WindCorrectedAppend(a, init, parse);
      assert (a + b)[..|a + b| - 1] == a + init;
      assert (a + b)[|a + b| - 1] == last;
      var text := Opt(last, WindSpeed);
      if WindCorrected(a + init, parse).Success? && parse(text).Some? {
        var fix := WindFix(last, parse(text).value);
        var x, y := WindCorrected(a, parse).value, WindCorrected(init, parse).value;
        assert WindCorrected(a + b, parse).value == (x + y) + fix;
        assert WindCorrected(b, parse).value == y + fix;
        assert (x + y) + fix == x + (y + fix);
      }
    }
  }

  /** Once the correction has failed on a prefix, the records after it do not matter. */
  lemma {:induction false} WindFailureStays(a: seq<Record>, b: seq<Record>, parse: Parser)
    requires WindCorrected(a, parse).Failure?
    ensures WindCorrected(a + b, parse) == WindCorrected(a, parse)
    decreases |b|
  {
    if b == [] {
      assert a + b == a;
    } else {
      WindFailureStays(a, b[..|b| - 1], parse);
      assert (a + b)[..|a + b| - 1] == a + b[..|b| - 1];
    }
  }

  /** The correction of a single record: its fix, or the failure to read its wind speed. */
  lemma WindCorrectedSingle(r: Record, parse: Parser)
    ensures WindCorrected([r], parse)
        == if parse(Opt(r, WindSpeed)).None? then Failure(NumberFormat(Opt(r, WindSpeed)))
           else Success(WindFix(r, parse(Opt(r, WindSpeed)).value))
  {
    assert [r][..0] == [];
    if parse(Opt(r, WindSpeed)).Some? {
      var fix := WindFix(r, parse(Opt(r, WindSpeed)).value);
      assert [] + fix == fix;
    }
  }

  /** Reading "0.3" gives the minimum, as Double.parseDouble does. */
  predicate ReadsMinimum(parse: Parser)
  {
    parse(MinWindSpeedText) == Some(MinWindSpeed)
  }

  /** The wind speed of a record reads within [0.3, 31.0]. */
  predicate WindInRange(r: Record, parse: Parser)
  {
    parse(Opt(r, WindSpeed)).Some?
    && MinWindSpeed <= parse(Opt(r, WindSpeed)).value <= MaxWindSpeed
  }

  /** Every record left by a successful correction has its wind speed within [0.3, 31.0]. */
  lemma {:induction false} WindCorrectedInRange(rs: seq<Record>, parse: Parser)
    requires ReadsMinimum(parse)
    requires WindCorrected(rs, parse).Success?
    ensures forall i :: 0 <= i < |WindCorrected(rs, parse).value| ==> WindInRange(WindCorrected(rs, parse).value[i], parse)
  {
    if rs != [] {
      var init := rs[..|rs| - 1];
      var last := rs[|rs| - 1];
      WindCorrectedInRange(init, parse);
      var done := WindCorrected(init, parse).value;
      var fix := WindFix(last, parse(Opt(last, WindSpeed)).value);
      assert forall i :: 0 <= i < |fix| ==> WindInRange(fix[i], parse);
      assert WindCorrected(rs, parse).value == done + fix;
    }
  }

  /** Correcting corrected records changes nothing. */
  lemma {:induction false} WindCorrectedIdempotent(rs: seq<Record>, parse: Parser)
    requires ReadsMinimum(parse)
    requires WindCorrected(rs, parse).Success?
    ensures WindCorrected(WindCorrected(rs, parse).value, parse) == WindCorrected(rs, parse)
  {
    if rs != [] {
      var init := rs[..|rs| - 1];
      var last := rs[|rs| - 1];
      WindCorrectedIdempotent(init, parse);
      var done := WindCorrected(init, parse).value;
      var fix := WindFix(last, parse(Opt(last, WindSpeed)).value);
      WindCorrectedAppend(done, fix, parse);
      if fix != [] {
        WindCorrectedSingle(fix[0], parse);
        assert fix == [fix[0]];
      }
    }
  }

  /** How many records read above the maximum; the correction drops exactly these. */
  function FastCount(rs: seq<Record>, parse: Parser): nat
  {
    if rs == [] then 0
    else
      var r := rs[|rs| - 1];
      FastCount(rs[..|rs| - 1], parse)
        + (if parse(Opt(r, WindSpeed)).Some? && parse(Opt(r, WindSpeed)).value > MaxWindSpeed then 1 else 0)
  }

  /** A successful correction removes one record per fast record and no other. */
  lemma {:induction false} WindCorrectedLength(rs: seq<Record>, parse: Parser)
    requires WindCorrected(rs, parse).Success?
    ensures |WindCorrected(rs, parse).value| + FastCount(rs, parse) == |rs|
  {
    if rs != [] {
      WindCorrectedLength(rs[..|rs| - 1], parse);
    }
  }

  /** The fields a record needs before it can be used. */
  const NeededFields: seq<Field> :=
    [Date, Time, Latitude, Longitude, AirTemperature, DewpointTemperature, WindSpeed]

  /** Every needed field is present and non-empty. */
  predicate Complete(r: Record)
  {
    forall f :: f in NeededFields ==> Opt(r, f) != ""
  }

  /** The complete records of a list, in their order. */
  function CompleteRecords(rs: seq<Record>): seq<Record>
  {
    if rs == [] then []
    else CompleteRecords(rs[..|rs| - 1]) + (if Complete(rs[|rs| - 1]) then [rs[|rs| - 1]] else [])
  }

  /** Filtering works record by record, so the kept records keep their order. */
  lemma {:induction false} CompleteRecordsAppend(a: seq<Record>, b: seq<Record>)
    ensures CompleteRecords(a + b) == CompleteRecords(a) + CompleteRecords(b)
    decreases |b|
  {
    if b == [] {
      assert a + b == a;
    } else {
      var init := b[..|b| - 1];
      CompleteRecordsAppend(a, init);
      assert (a + b)[..|a + b| - 1] == a + init;
    }
  }

  /** Each record is kept as often as it occurs when complete, and never otherwise. */
  lemma {:induction false} CompleteRecordsCount(rs: seq<Record>, x: Record)
    ensures multiset(CompleteRecords(rs))[x] == if Complete(x) then multiset(rs)[x] else 0
  {
    if rs != [] {
      var init := rs[..|rs| - 1];
      CompleteRecordsCount(init, x);
      assert rs == init + [rs[|rs| - 1]];
    }
  }

  /** Filtering twice keeps what filtering once keeps. */
  lemma {:induction false} CompleteRecordsIdempotent(rs: seq<Record>)
    ensures CompleteRecords(CompleteRecords(rs)) == CompleteRecords(rs)
  {
    if rs != [] {
      var init := rs[..|rs| - 1];
      var last := rs[|rs| - 1];
      CompleteRecordsIdempotent(init);
      var tail := if Complete(last) then [last] else [];
      CompleteRecordsAppend(CompleteRecords(init), tail);
      if Complete(last) {
        assert [last][..0] == [];
      }
    }
  }

  /** The least number of complete records a station must have. */
  const MinStationRecords: nat := 3
  /** The observation times a station must have a record for. */
  const WantedStationHours: seq<string> := ["1200"]

  /** Some record's field key reads value. */
  predicate HasValue(rs: seq<Record>, key: Field, value: string)
  {
    exists i :: 0 <= i < |rs| && Opt(rs[i], key) == value
  }

  /** A station's (filtered) records are usable: enough of them, and one at each wanted hour. */
  predicate Acceptable(rs: seq<Record>)
  {
    |rs| >= MinStationRecords && forall h :: h in WantedStationHours ==> HasValue(rs, Time, h)
  }

  /** With the hours the code wants, acceptance means three records and one of them at 1200. */
  lemma AcceptableAtNoon(rs: seq<Record>)
    ensures Acceptable(rs) <==> |rs| >= 3 && exists i :: 0 <= i < |rs| && Opt(rs[i], Time) == "1200"
  {
    assert "1200" in WantedStationHours;
  }
}
