/**
 * The text a selected station's records are turned into: one line per record,
 * fourteen fields each followed by ';', the lines concatenated and trimmed.
 */
module Format {
  import opened Records

  /** What an empty optional field is written as. */
  const NotAvailable: string := "NA"
  /** The line separator (the platform's; a single newline here). */
  const LineSeparator: string := "\n"

  /** An empty field becomes "NA"; any other text is kept. */
  function StationDataCorrection(data: string): (r: string)
    ensures r != ""
    ensures data != "" ==> r == data
  {
    if data == "" then NotAvailable else data
  }

  /** Correcting a corrected field changes nothing. */
  lemma StationDataCorrectionIdempotent(data: string)
    ensures StationDataCorrection(StationDataCorrection(data)) == StationDataCorrection(data)
  {
  }

  /**
   * The fourteen columns of a record's line: id, date, time, latitude,
   * longitude, wind speed, air and dew-point temperature, average air
   * temperature, relative humidity, minimum and maximum temperature, solar
   * radiation and the station's distance; only the id and the last five
   * measurements fall back to "NA".
   */
  function Columns(r: Record, distance: string): (cols: seq<string>)
  {
    [ StationDataCorrection(Opt(r, StationId)), Opt(r, Date), Opt(r, Time),
      Opt(r, Latitude), Opt(r, Longitude), Opt(r, WindSpeed),
      Opt(r, AirTemperature), Opt(r, DewpointTemperature),
      StationDataCorrection(Opt(r, AvgAirTemperature)),
      StationDataCorrection(Opt(r, RelativeHumidity)),
      StationDataCorrection(Opt(r, MinTemperature)),
      StationDataCorrection(Opt(r, MaxTemperature)),
      StationDataCorrection(Opt(r, SolarRadiation)),
      distance ]
  }

  /** Each column followed by ';'. */
  function Join(cols: seq<string>): string
  {
    if cols == [] then "" else cols[0] + ";" + Join(cols[1..])
  }

  /** checkVariablesAndBuildString: the line written for one record. */
  function RecordLine(r: Record, distance: string): string
  {
    Join(Columns(r, distance)) + LineSeparator
  }

  /** A field is free of the column separator. */
  predicate Clean(text: string)
  {
    ';' !in text
  }

  /** The position of the first ';' in s, or |s| when there is none. */
  function IndexOfSeparator(s: string): (i: nat)
    ensures i <= |s|
  {
    if s == [] then 0
    else if s[0] == ';' then 0
    else 1 + IndexOfSeparator(s[1..])
  }

  /** The pieces of s between the ';' characters (s itself when it has none). */
  function Split(s: string): seq<string>
    decreases |s|
  {
    var i := IndexOfSeparator(s);
    if i == |s| then [s] else [s[..i]] + Split(s[i + 1..])
  }

  /** A string without ';' has its first ';' at its end. */
  lemma {:induction false} IndexOfAbsent(s: string)
    requires Clean(s)
    ensures IndexOfSeparator(s) == |s|
  {
    if s != [] {
      assert s[0] in s;
      assert Clean(s[1..]) by {
        forall c | c in s[1..]
          ensures c in s
        {
          var j :| 0 <= j < |s[1..]| && s[1..][j] == c;
          assert s[j + 1] == c;
        }
      }
      IndexOfAbsent(s[1..]);
    }
  }

  /** The first ';' of head + ";" + rest is the one after head, when head has none. */
  lemma {:induction false} IndexOfAfter(head: string, rest: string)
    requires Clean(head)
    ensures IndexOfSeparator(head + (";" + rest)) == |head|
  {
    var s := head + (";" + rest);
    if head != [] {
      assert head[0] in head;
      assert s[0] == head[0];
      assert s[1..] == head[1..] + (";" + rest);
      assert Clean(head[1..]) by {
        forall c | c in head[1..]
          ensures c in head
        {
          var j :| 0 <= j < |head[1..]| && head[1..][j] == c;
          assert head[j + 1] == c;
        }
      }
      IndexOfAfter(head[1..], rest);
    }
  }

  /** Splitting at the ';' right after a ';'-free head gives the head, then the pieces of the rest. */
  lemma SplitStep(head: string, after: string)
    requires Clean(head)
    ensures Split(head + (";" + after)) == [head] + Split(after)
  {
    var s := head + (";" + after);
    IndexOfAfter(head, after);
    assert s[..|head|] == head;
    assert s[|head| + 1..] == after;
  }

  /** The joined columns followed by a tail, regrouped around the first separator. */
  lemma JoinFirst(cols: seq<string>, tail: string)
    requires cols != []
    ensures Join(cols) + tail == cols[0] + (";" + (Join(cols[1..]) + tail))
  {
  }

  /** Splitting the joined columns followed by a ';'-free tail gives back the columns and the tail. */
  lemma {:induction false} SplitJoin(cols: seq<string>, tail: string)
    requires forall k :: 0 <= k < |cols| ==> Clean(cols[k])
    requires Clean(tail)
    ensures Split(Join(cols) + tail) == cols + [tail]
  {
    if cols == [] {
      assert Join(cols) + tail == tail;
      IndexOfAbsent(tail);
    } else {
      var head, rest := cols[0], cols[1..];
      JoinFirst(cols, tail);
      SplitStep(head, Join(rest) + tail);
      SplitJoin(rest, tail);
      assert cols + [tail] == [head] + (rest + [tail]);
    }
  }

  /**
   * A record line reads back as its fourteen columns (and the trailing line
   * separator) whenever no field of the record and not the distance holds a ';'.
   */
  lemma RecordLineFields(r: Record, distance: string)
    requires forall f :: Clean(Opt(r, f))
    requires Clean(distance)
    ensures Split(RecordLine(r, distance)) == Columns(r, distance) + [LineSeparator]
    ensures |Columns(r, distance)| == 14
  {
    var cols := Columns(r, distance);
    assert Clean(NotAvailable);
    forall k | 0 <= k < |cols|
      ensures Clean(cols[k])
    {
    }
    SplitJoin(cols, LineSeparator);
  }

  /** The characters String.trim removes: every code point up to the space. */
  predicate Blank(c: char)
  {
    c <= ' '
  }

  function TrimStart(s: string): string
  {
    if s != [] && Blank(s[0]) then TrimStart(s[1..]) else s
  }

  function TrimEnd(s: string): string
  {
    if s != [] && Blank(s[|s| - 1]) then TrimEnd(s[..|s| - 1]) else s
  }

  /** String.trim: s without its leading and trailing blanks. */
  function Trim(s: string): string
  {
    TrimEnd(TrimStart(s))
  }

  lemma {:induction false} TrimStartBounds(s: string) returns (a: nat)
    ensures a <= |s| && TrimStart(s) == s[a..]
    ensures forall k :: 0 <= k < a ==> Blank(s[k])
    ensures a < |s| ==> !Blank(s[a])
  {
    if s != [] && Blank(s[0]) {
      var b := TrimStartBounds(s[1..]);
      a := b + 1;
      assert s[1..][b..] == s[a..];
      forall k | 0 <= k < a
        ensures Blank(s[k])
      {
        if k > 0 {
          assert s[k] == s[1..][k - 1];
        }
      }
    } else {
      a := 0;
    }
  }

  lemma {:induction false} TrimEndBounds(s: string) returns (b: nat)
    ensures b <= |s| && TrimEnd(s) == s[..b]
    ensures forall k :: b <= k < |s| ==> Blank(s[k])
    ensures 0 < b ==> !Blank(s[b - 1])
  {
    if s != [] && Blank(s[|s| - 1]) {
      b := TrimEndBounds(s[..|s| - 1]);
      assert s[..|s| - 1][..b] == s[..b];
    } else {
      b := |s|;
    }
  }

  /**
   * Trimming cuts s to a slice s[a..b]: everything before a and from b on is
   * blank, and a non-empty result starts and ends with a non-blank character.
   */
  lemma TrimBounds(s: string) returns (a: nat, b: nat)
    ensures a <= b <= |s| && Trim(s) == s[a..b]
    ensures forall k :: 0 <= k < a ==> Blank(s[k])
    ensures forall k :: b <= k < |s| ==> Blank(s[k])
    ensures Trim(s) != [] ==> !Blank(Trim(s)[0]) && !Blank(Trim(s)[|Trim(s)| - 1])
  {
    a := TrimStartBounds(s);
    var t := s[a..];
    var e := TrimEndBounds(t);
    b := a + e;
    assert t[..e] == s[a..b];
    forall k | b <= k < |s|
      ensures Blank(s[k])
    {
      assert s[k] == t[k - a];
    }
    if Trim(s) != [] {
      assert Trim(s)[0] == t[0];
    }
  }

  /** Trimming a trimmed string changes nothing. */
  lemma TrimIdempotent(s: string)
    ensures Trim(Trim(s)) == Trim(s)
  {
    var t := Trim(s);
    var a0, b0 := TrimBounds(s);
    var a, b := TrimBounds(t);
  }

  /** The record lines of a list of records, one after the other. */
  function Lines(rs: seq<Record>, distance: string): string
  {
    if rs == [] then "" else Lines(rs[..|rs| - 1], distance) + RecordLine(rs[|rs| - 1], distance)
  }

  /** generateStationData: the record lines, trimmed. */
  function StationText(rs: seq<Record>, distance: string): string
  {
    Trim(Lines(rs, distance))
  }

  /** Every record line holds a ';' just after its first column. */
  lemma RecordLineHasSeparator(r: Record, distance: string)
    ensures exists k :: 0 <= k < |RecordLine(r, distance)| && RecordLine(r, distance)[k] == ';'
  {
    var cols := Columns(r, distance);
    var line := RecordLine(r, distance);
    assert line == cols[0] + (";" + (Join(cols[1..]) + LineSeparator));
    assert line[|cols[0]|] == ';';
  }

  /** The station text is empty exactly when there are no records. */
  lemma StationTextEmpty(rs: seq<Record>, distance: string)
    ensures StationText(rs, distance) == [] <==> rs == []
  {
    if rs != [] {
      var s := Lines(rs, distance);
      var prefix := Lines(rs[..|rs| - 1], distance);
      var last := RecordLine(rs[|rs| - 1], distance);
      RecordLineHasSeparator(rs[|rs| - 1], distance);
      var k :| 0 <= k < |last| && last[k] == ';';
      assert s[|prefix| + k] == ';';
      var a, b := TrimBounds(s);
      assert !Blank(s[|prefix| + k]);
      assert a <= |prefix| + k < b;
    }
  }
}
