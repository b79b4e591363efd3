/**
 * The weather-station side: clean a station's records in place, decide
 * whether they are usable, format them, and pick the first usable station
 * near the scene.
 *
 * The JSON array of records is a class whose list the methods shrink and
 * update in place. Reading a station over the network is a function
 * parameter that gives the station's records, a null array, or an exception.
 */
module Weather {
  import opened Wrappers
  import opened Records
  import opened Format

  /** A JSON array of records. */
  class RecordArray {
    var records: seq<Record>

    constructor (rs: seq<Record>)
      ensures records == rs
    {
      records := rs;
    }
  }

  /** A station near the scene: its id and its distance, as already printed. */
  datatype Station = Station(id: string, distance: string)

  /** What reading a station gives: an exception, or an array that may be null. */
  datatype Reading = Thrown | Data(records: Option<seq<Record>>)

  type Reader = string -> Reading

  /**
   * containsNeededStationValues: every needed field is non-empty.
   */
  method ContainsNeededStationValues(data: Record) returns (result: bool)
    ensures result == Complete(data)
  {
    result := true;
    var n := 0;
    while n < |NeededFields|
      invariant 0 <= n <= |NeededFields|
      invariant result <==> forall j :: 0 <= j < n ==> Opt(data, NeededFields[j]) != ""
    {
      if Opt(data, NeededFields[n]) == "" {
        result := false;
      }
      n := n + 1;
    }
    assert result <==> forall j :: 0 <= j < |NeededFields| ==> Opt(data, NeededFields[j]) != "";
  }

  /** hasRecord: some record's field key reads value; the scan stops at the first. */
  method HasRecord(stationData: RecordArray, key: Field, value: string) returns (result: bool)
    ensures result == HasValue(stationData.records, key, value)
  {
    result := false;
    var i := 0;
    while i < |stationData.records| && !result
      invariant 0 <= i <= |stationData.records|
      invariant result ==> HasValue(stationData.records, key, value)
      invariant !result ==> forall j :: 0 <= j < i ==> Opt(stationData.records[j], key) != value
    {
      if Opt(stationData.records[i], key) == value {
        result := true;
      }
      i := i + 1;
    }
  }

  /** Removing the element just after done from done + rest leaves done followed by the rest of rest. */
  lemma DropNext<T>(done: seq<T>, rest: seq<T>)
    requires rest != []
    ensures (done + rest)[|done|] == rest[0]
    ensures (done + rest)[..|done|] + (done + rest)[|done| + 1..] == done + rest[1..]
  {
    assert (done + rest)[..|done|] == done;
    assert (done + rest)[|done| + 1..] == rest[1..];
  }

  /** A sequence is its first n elements followed by the rest. */
  lemma TakeDrop<T>(s: seq<T>, n: nat)
    requires n <= |s|
    ensures s[..n] + s[n..] == s
  {
  }

  /** Replacing the element just after done by x (or keeping it, with x == rest[0]) moves it into done. */
  lemma ReplaceNext<T>(done: seq<T>, rest: seq<T>, x: T)
    requires rest != []
    ensures (done + rest)[|done| := x] == (done + [x]) + rest[1..]
  {
  }

  /** One more input record considered by the completeness filter. */
  lemma CompleteStep(input: seq<Record>, k: nat)
    requires k < |input|
    ensures CompleteRecords(input[..k + 1])
        == CompleteRecords(input[..k]) + (if Complete(input[k]) then [input[k]] else [])
  {
    assert input[..k + 1][..k] == input[..k];
  }

  /** One more input record, whose wind speed parses, considered by the wind-speed correction. */
  lemma WindStep(input: seq<Record>, k: nat, done: seq<Record>, parse: Parser)
    requires k < |input| && WindCorrected(input[..k], parse) == Success(done)
    requires parse(Opt(input[k], WindSpeed)).Some?
    ensures WindCorrected(input[..k + 1], parse) == Success(done + WindFix(input[k], parse(Opt(input[k], WindSpeed)).value))
  {
    var prefix := input[..k + 1];
    assert prefix[..|prefix| - 1] == input[..k] && prefix[|prefix| - 1] == input[k];
  }

  /** A record whose wind speed does not parse makes the correction fail right there. */
  lemma WindPrefixFails(input: seq<Record>, k: nat, done: seq<Record>, parse: Parser)
    requires k < |input| && WindCorrected(input[..k], parse) == Success(done)
    requires parse(Opt(input[k], WindSpeed)).None?
    ensures WindCorrected(input[..k + 1], parse) == Failure(NumberFormat(Opt(input[k], WindSpeed)))
  {
    var prefix := input[..k + 1];
    assert prefix[..|prefix| - 1] == input[..k] && prefix[|prefix| - 1] == input[k];
  }

  /** A record whose wind speed does not parse makes the correction of the whole input fail. */
  lemma WindStepFails(input: seq<Record>, k: nat, done: seq<Record>, parse: Parser)
    requires k < |input| && WindCorrected(input[..k], parse) == Success(done)
    requires parse(Opt(input[k], WindSpeed)).None?
    ensures WindCorrected(input, parse) == Failure(NumberFormat(Opt(input[k], WindSpeed)))
  {
    WindPrefixFails(input, k, done, parse);
    WindFailureStays(input[..k + 1], input[k + 1..], parse);
    TakeDrop(input, k + 1);
  }

  /**
   * checkRecords: remove the incomplete records from the array, in place and
   * in order, then accept it when at least three records are left and one is
   * at each wanted hour. A null array is rejected.
   */
  method CheckRecords(stationData: RecordArray?) returns (result: bool)
    modifies stationData
    ensures stationData != null ==> stationData.records == CompleteRecords(old(stationData.records))
    ensures result <==> stationData != null && Acceptable(stationData.records)
  {
    result := false;
    if stationData != null {
      ghost var input := stationData.records;
      ghost var done: seq<Record> := [];
      ghost var k := 0;
      var i := 0;
      while i < |stationData.records|
        invariant 0 <= k <= |input| && i == |done|
        invariant stationData.records == done + input[k..]
        invariant done == CompleteRecords(input[..k])
        decreases |stationData.records| - i
      {
        ghost var rest := input[k..];
        DropNext(done, rest);
        ReplaceNext(done, rest, rest[0]);
        CompleteStep(input, k);
        assert input[k + 1..] == rest[1..];
        var complete := ContainsNeededStationValues(stationData.records[i]);
        if !complete {
          stationData.records := stationData.records[..i] + stationData.records[i + 1..];
        } else {
          done := done + [rest[0]];
          i := i + 1;
        }
        k := k + 1;
      }
      assert input[..k] == input && input[k..] == [];
      assert stationData.records == done;
      var enough := |stationData.records| >= MinStationRecords;
      if enough {
        var hasAll := true;
        var n := 0;
        while n < |WantedStationHours|
          invariant 0 <= n <= |WantedStationHours| && stationData.records == done
          invariant hasAll <==> forall j :: 0 <= j < n ==> HasValue(stationData.records, Time, WantedStationHours[j])
        {
          var found := HasRecord(stationData, Time, WantedStationHours[n]);
          if !found {
            hasAll := false;
          }
          n := n + 1;
        }
        assert hasAll <==> forall h :: h in WantedStationHours ==> HasValue(stationData.records, Time, h);
        result := hasAll;
      }
    }
  }

  /**
   * windSpeedCorrection: a copy of the records with slow wind speeds raised to
   * the minimum and fast records dropped; a null array gives an empty one, and
   * a wind speed that does not parse throws. The argument is left untouched.
   */
  method WindSpeedCorrection(stationData: RecordArray?, parse: Parser) returns (r: Result<RecordArray, ParseError>)
    ensures r.Success? ==> fresh(r.value)
    ensures stationData == null ==> r.Success? && r.value.records == []
    ensures stationData != null ==> r.Success? == WindCorrected(stationData.records, parse).Success?
    ensures stationData != null && r.Success? ==> r.value.records == WindCorrected(stationData.records, parse).value
    ensures stationData != null && r.Failure? ==> r == Failure(WindCorrected(stationData.records, parse).error)
  {
    if stationData == null {
      var empty := new RecordArray([]);
      return Success(empty);
    }
    ghost var input := stationData.records;
    var adjusted := new RecordArray(stationData.records);
    ghost var done: seq<Record> := [];
    ghost var k := 0;
    var i := 0;
    while i < |adjusted.records|
      invariant 0 <= k <= |input| && i == |done|
      invariant adjusted.records == done + input[k..]
      invariant WindCorrected(input[..k], parse) == Success(done)
      decreases |adjusted.records| - i
    {
      ghost var rest := input[k..];
      var record := adjusted.records[i];
      var text := Opt(record, WindSpeed);
      var speed := parse(text);
      DropNext(done, rest);
      assert input[k + 1..] == rest[1..];
      if speed.None? {
        WindStepFails(input, k, done, parse);
        return Failure(NumberFormat(text));
      }
      WindStep(input, k, done, parse);
      if speed.value < MinWindSpeed {
        ReplaceNext(done, rest, record[WindSpeed := MinWindSpeedText]);
        adjusted.records := adjusted.records[i := record[WindSpeed := MinWindSpeedText]];
        done := done + [record[WindSpeed := MinWindSpeedText]];
        i := i + 1;
      } else if speed.value > MaxWindSpeed {
        adjusted.records := adjusted.records[..i] + adjusted.records[i + 1..];
        assert done + [] == done;
      } else {
        ReplaceNext(done, rest, record);
        done := done + [record];
        i := i + 1;
      }
      k := k + 1;
    }
    assert input[..k] == input;
    return Success(adjusted);
  }

  /** generateStationData: one line per record, concatenated, then trimmed. */
  method GenerateStationData(stationData: RecordArray, distance: string) returns (text: string)
    ensures text == StationText(stationData.records, distance)
  {
    var builder := "";
    var i := 0;
    while i < |stationData.records|
      invariant 0 <= i <= |stationData.records|
      invariant builder == Lines(stationData.records[..i], distance)
    {
      assert stationData.records[..i + 1][..i] == stationData.records[..i];
      builder := builder + RecordLine(stationData.records[i], distance);
      i := i + 1;
    }
    assert stationData.records[..i] == stationData.records;
    text := Trim(builder);
  }

  /** What one station yields: its formatted records when they are usable, None when they are not or reading fails. */
  function Passes(station: Station, read: Reader, parse: Parser): Option<string>
  {
    match read(station.id)
    case Thrown => None
    case Data(data) =>
      var rs := if data.None? then [] else data.value;
      match WindCorrected(rs, parse)
      case Failure(_) => None
      case Success(corrected) =>
        var kept := CompleteRecords(corrected);
        if Acceptable(kept) then Some(StationText(kept, station.distance)) else None
  }

  /** The yield of the first station, in list order, that yields anything. */
  function FirstPassing(stations: seq<Station>, read: Reader, parse: Parser): Option<string>
  {
    if stations == [] then None
    else if Passes(stations[0], read, parse).Some? then Passes(stations[0], read, parse)
    else FirstPassing(stations[1..], read, parse)
  }

  /** The search answers None exactly when no station passes. */
  lemma {:induction false} FirstPassingNone(stations: seq<Station>, read: Reader, parse: Parser)
    ensures FirstPassing(stations, read, parse).None?
        <==> forall i :: 0 <= i < |stations| ==> Passes(stations[i], read, parse).None?
  {
    if stations != [] {
      FirstPassingNone(stations[1..], read, parse);
      assert forall i :: 1 <= i < |stations| ==> stations[i] == stations[1..][i - 1];
    }
  }

  /**
   * An answer is the yield of some station i that passes, and no station
   * before i passes.
   */
  lemma {:induction false} FirstPassingIsFirst(stations: seq<Station>, read: Reader, parse: Parser) returns (i: nat)
    requires FirstPassing(stations, read, parse).Some?
    ensures i < |stations| && FirstPassing(stations, read, parse) == Passes(stations[i], read, parse)
    ensures forall j :: 0 <= j < i ==> Passes(stations[j], read, parse).None?
  {
    if Passes(stations[0], read, parse).Some? {
      i := 0;
    } else {
      var rest := stations[1..];
      var n := FirstPassingIsFirst(rest, read, parse);
      i := n + 1;
      forall j | 0 <= j < i
        ensures Passes(stations[j], read, parse).None?
      {
        if j > 0 {
          assert stations[j] == rest[j - 1];
        }
      }
    }
  }

  /**
   * selectStation: the formatted records of the first station whose reading
   * succeeds and whose corrected records are usable; stations whose reading
   * or correction throws are skipped; a null or empty list gives None.
   */
  method SelectStation(stations: Option<seq<Station>>, read: Reader, parse: Parser) returns (r: Option<string>)
    ensures r == if stations.None? then None else FirstPassing(stations.value, read, parse)
  {
    if stations.None? || |stations.value| == 0 {
      return None;
    }
    var list := stations.value;
    var n := 0;
    while n < |list|
      invariant 0 <= n <= |list|
      invariant FirstPassing(list, read, parse) == FirstPassing(list[n..], read, parse)
    {
      var station := list[n];
      assert list[n..][0] == station && list[n..][1..] == list[n + 1..];
      var reading := read(station.id);
      if reading.Data? {
        var data: RecordArray? := null;
        if reading.records.Some? {
          data := new RecordArray(reading.records.value);
        }
        var corrected := WindSpeedCorrection(data, parse);
        if corrected.Success? {
          var usable := CheckRecords(corrected.value);
          if usable {
            var text := GenerateStationData(corrected.value, station.distance);
            return Some(text);
          }
        }
      }
      n := n + 1;
    }
    return None;
  }
}
