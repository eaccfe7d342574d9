/** parseRow: one comma-separated log line to a station/timestamp/values
    record, an error, or the "too old" sentinel. */
module Records {
  import opened Text
  import opened Tables

  datatype Option<T> = None | Some(value: T)

  /** Record: station ID, assembled timestamp, and measurement name to raw value. */
  datatype Record = Record(stationId: string, timestamp: string, values: map<string, string>)

  datatype ParseError =
    | InvalidRow(line: string)            // fewer than 7 fields
    | InvalidTimestamp(timestamp: string) // the assembled timestamp does not parse

  /** What parseRow does with a line. `IndexPanic` is the run-time panic Go
      raises when the line has exactly 7 fields and `fields[7]` is read. */
  datatype ParseOutcome = Parsed(record: Record) | Failed(error: ParseError) | IndexPanic

  /** The record returned for a line older than the cutoff: a zero Record,
      told apart from a kept one by its empty timestamp. */
  function TooOld(): (r: Record)
    ensures r.timestamp == "" && r.stationId == "" && r.values == map[]
  {
    Record("", "", map[])
  }

  /** Go's `time.Time.Before`, on instants abstracted as integers. */
  predicate Before(t: int, cutoff: int) {
    t < cutoff
  }

  /** zeroPad: a one-character field gets a '0' in front; any other field
      is kept. Padding never shortens a field, adds at most one character,
      and gives at least two characters unless the field is empty. */
  function ZeroPad(num: string): (padded: string)
    ensures |num| <= |padded| <= |num| + 1
    ensures num != [] ==> |padded| >= 2
  {
    if |num| == 1 then "0" + num else num
  }

  /** The padded field ends with the original one, and anything added in
      front of it is a '0': the numeric value is unchanged. A '0' is added
      exactly to a one-character field. */
  lemma ZeroPadKeepsDigits(num: string)
    ensures var padded := ZeroPad(num);
      padded[|padded| - |num|..] == num && (|padded| > |num| ==> padded[0] == '0')
    ensures |ZeroPad(num)| > |num| <==> |num| == 1
  {
  }

  /** Padding twice pads once. */
  lemma ZeroPadIdempotent(num: string)
    ensures ZeroPad(ZeroPad(num)) == ZeroPad(num)
  {
  }

  /** A single digit is padded; two digits are left alone. */
  lemma ZeroPadExamples()
    ensures ZeroPad("5") == "05" && ZeroPad("05") == "05" && ZeroPad("") == ""
  {
  }

  /** The `YYYY-MM-DDTHH:MM:SS` string built from positions 2..7
      (hour, minute, second, day, month, year). It is never empty, since it
      always holds its five separators, and it starts with the year. */
  function Timestamp(fields: seq<string>): (ts: string)
    requires |fields| >= 8
    ensures |ts| >= 5
    ensures |fields[7]| < |ts| && ts[..|fields[7]|] == fields[7] && ts[|fields[7]|] == '-'
  {
    fields[7] + "-" + ZeroPad(fields[6]) + "-" + ZeroPad(fields[5]) + "T"
      + ZeroPad(fields[2]) + ":" + ZeroPad(fields[3]) + ":" + ZeroPad(fields[4])
  }

  /** With a four-character year and one- or two-character time parts, the
      timestamp has the fixed 19-character layout `2006-01-02T15:04:05`, and
      each part can be read back at its position. */
  lemma TimestampLayout(fields: seq<string>)
    requires |fields| >= 8
    requires |fields[7]| == 4
    requires forall k :: 2 <= k <= 6 ==> 1 <= |fields[k]| <= 2
    ensures var ts := Timestamp(fields);
      && |ts| == 19
      && ts[4] == '-' && ts[7] == '-' && ts[10] == 'T' && ts[13] == ':' && ts[16] == ':'
      && ts[..4] == fields[7]
      && ts[5..7] == ZeroPad(fields[6]) && ts[8..10] == ZeroPad(fields[5])
      && ts[11..13] == ZeroPad(fields[2]) && ts[14..16] == ZeroPad(fields[3])
      && ts[17..] == ZeroPad(fields[4])
  {
    var year, month, day := fields[7], ZeroPad(fields[6]), ZeroPad(fields[5]);
    var hour, minute, second := ZeroPad(fields[2]), ZeroPad(fields[3]), ZeroPad(fields[4]);
    assert |month| == 2 && |day| == 2 && |hour| == 2 && |minute| == 2 && |second| == 2 by {
      assert 1 <= |fields[6]| && 1 <= |fields[5]| && 1 <= |fields[2]| && 1 <= |fields[3]| && 1 <= |fields[4]|;
    }
    var date := year + "-" + month + "-" + day;
    var clock := hour + ":" + minute + ":" + second;
    var ts := Timestamp(fields);
    assert ts == date + "T" + clock;
    assert |date| == 10 && |clock| == 8;
    assert ts[..10] == date && ts[11..] == clock;
    assert date[..4] == year && date[5..7] == month && date[8..] == day;
    assert clock[..2] == hour && clock[3..5] == minute && clock[6..] == second;
  }

  /** The worked example of the log format: `S,0012,9,5,0,15,6,2023,...`. */
  lemma TimestampExample(fields: seq<string>)
    requires |fields| >= 8
    requires fields[..8] == ["S", "0012", "9", "5", "0", "15", "6", "2023"]
    ensures Timestamp(fields) == "2023-06-15T09:05:00"
  {
    assert fields[2] == "9" && fields[3] == "5" && fields[4] == "0";
    assert fields[5] == "15" && fields[6] == "6" && fields[7] == "2023";
    assert ZeroPad("9") == "09" && ZeroPad("5") == "05" && ZeroPad("0") == "00";
    assert ZeroPad("15") == "15" && ZeroPad("6") == "06";
  }

  /** A value of "*" marks missing data and is stored as "". */
  function NormalizeMissing(value: string): string {
    if value == "*" then "" else value
  }

  /** Only "*" and "" are stored as "", and any other value is stored
      unchanged. */
  lemma MissingMarker(value: string)
    ensures NormalizeMissing(value) == "" <==> value == "*" || value == ""
    ensures value != "*" ==> NormalizeMissing(value) == value
  {
  }

  /** The name the triple starting at `j` resolves to ("" if unknown). */
  function NameAt(fields: seq<string>, j: nat): string
    requires j + 1 < |fields|
  {
    MeasurementName(fields[j], fields[j + 1])
  }

  /** The triple at `j` stores a value: both IDs are known and a value
      field follows them. */
  predicate Contributes(fields: seq<string>, j: nat) {
    j + 2 < |fields| && NameAt(fields, j) != ""
  }

  /** `j` is one of the triple starts i, i+3, i+6, ... */
  predicate OnStride(i: nat, j: nat) {
    i <= j && (j - i) % 3 == 0
  }

  /** The values recorded by the triples starting at i, i+3, ... (while
      a processing ID follows): for each name, the value of the LAST triple
      that resolves to it. Every key is a name from the table. */
  function ValuesFrom(fields: seq<string>, i: nat): (values: map<string, string>)
    ensures values.Keys <= TableNames()
    decreases |fields| - i
  {
    if i + 1 >= |fields| then map[]
    else
      var later := ValuesFrom(fields, i + 3);
      var name := NameAt(fields, i);
      if Contributes(fields, i) && name !in later
      then later[name := NormalizeMissing(fields[i + 2])]
      else later
  }

  /** A triple that contributes, with no later contributing triple of the
      same name, decides that name's value. */
  lemma {:induction false} LastTripleWins(fields: seq<string>, i: nat, j: nat)
    requires OnStride(i, j) && Contributes(fields, j)
    requires forall j' :: OnStride(j + 3, j') && Contributes(fields, j') ==> NameAt(fields, j') != NameAt(fields, j)
    ensures NameAt(fields, j) in ValuesFrom(fields, i)
    ensures ValuesFrom(fields, i)[NameAt(fields, j)] == NormalizeMissing(fields[j + 2])
    decreases |fields| - i
  {
    if i == j {
      NameNotLater(fields, j + 3, NameAt(fields, j));
    } else {
      assert OnStride(i + 3, j);
      LastTripleWins(fields, i + 3, j);
      var later := ValuesFrom(fields, i + 3);
      assert NameAt(fields, j) in later;
    }
  }

  /** A name no triple from `i` on contributes is absent: unknown IDs and
      a trailing pair without a value record nothing. */
  lemma {:induction false} NameNotLater(fields: seq<string>, i: nat, name: string)
    requires forall j :: OnStride(i, j) && Contributes(fields, j) ==> NameAt(fields, j) != name
    ensures name !in ValuesFrom(fields, i)
    decreases |fields| - i
  {
    if i + 1 < |fields| {
      assert OnStride(i, i);
      forall j | OnStride(i + 3, j) && Contributes(fields, j)
        ensures NameAt(fields, j) != name
      {
        assert OnStride(i, j);
      }
      NameNotLater(fields, i + 3, name);
    }
  }

  /** Storing the triple at `i` over the values of the triples before it
      keeps the walk's invariant: what is stored so far, overridden by what
      the triples from `i` on store, is the whole walk's map. */
  lemma WalkStep(fields: seq<string>, i: nat, values: map<string, string>)
    requires i + 1 < |fields|
    requires values + ValuesFrom(fields, i) == ValuesFrom(fields, 8)
    ensures var stored := if Contributes(fields, i)
        then values[NameAt(fields, i) := NormalizeMissing(fields[i + 2])] else values;
      stored + ValuesFrom(fields, i + 3) == ValuesFrom(fields, 8)
  {
    var later := ValuesFrom(fields, i + 3);
    if Contributes(fields, i) {
      var name, value := NameAt(fields, i), NormalizeMissing(fields[i + 2]);
      var stored := values[name := value];
      if name in later {
        assert ValuesFrom(fields, i) == later;
      } else {
        assert ValuesFrom(fields, i) == later[name := value];
      }
      assert stored + later == values + ValuesFrom(fields, i);
    }
  }

  /** The triple walk of parseRow: `for i := 8; i < len(fields)-1; i += 3`,
      storing each resolved name's value, later triples overwriting earlier
      ones. The map it builds is the last-triple-wins map of the fields. */
  method CollectValues(fields: seq<string>) returns (values: map<string, string>)
    ensures values == ValuesFrom(fields, 8)
  {
    values := map[];
    var i := 8;
    while i < |fields| - 1
      invariant 8 <= i
      invariant values + ValuesFrom(fields, i) == ValuesFrom(fields, 8)
      decreases |fields| - i
    {
      WalkStep(fields, i, values);
      var measurementId, processingId := fields[i], fields[i + 1];
      var name := MeasurementName(measurementId, processingId);
      if name != "" && i + 2 < |fields| {
        var value := fields[i + 2];
        if value == "*" {
          value := "";
        }
        values := values[name := value];
      }
      i := i + 3;
    }
    assert values + map[] == values;
  }

  /** parseRow as a function of the line, the timestamp parser standing
      in for `time.Parse` with layout `2006-01-02T15:04:05`, and the cutoff.
      Fewer than 7 fields is an invalid row; exactly 7 reaches the read
      of `fields[7]` and panics; no other line fails for lack of fields. */
  function ParseLine(line: string, parseTime: string -> Option<int>, cutoff: int): (outcome: ParseOutcome)
    ensures outcome == Failed(InvalidRow(line)) <==> |Split(line)| < 7
    ensures outcome.IndexPanic? <==> |Split(line)| == 7
    ensures outcome.Parsed? && outcome.record.timestamp != "" ==>
      outcome.record.stationId == TrimLeadingZeros(Split(line)[1])
  {
    var fields := Split(line);
    if |fields| < 7 then Failed(InvalidRow(line))
    else if |fields| < 8 then IndexPanic
    else
      var ts := Timestamp(fields);
      match parseTime(ts)
      case None => Failed(InvalidTimestamp(ts))
      case Some(t) =>
        if Before(t, cutoff) then Parsed(TooOld())
        else Parsed(Record(TrimLeadingZeros(fields[1]), ts, ValuesFrom(fields, 8)))
  }

  /** For a line with all eight fixed fields: an unparseable timestamp is
      an error, a time before the cutoff gives the sentinel with an empty
      timestamp, and otherwise the record is kept with a non-empty
      timestamp, so the caller's empty-timestamp test tells the sentinel
      from a kept record exactly. */
  lemma ParseLineCases(line: string, parseTime: string -> Option<int>, cutoff: int)
    requires |Split(line)| >= 8
    ensures var fields := Split(line);
      var ts := Timestamp(fields);
      var outcome := ParseLine(line, parseTime, cutoff);
      && (parseTime(ts).None? <==> outcome == Failed(InvalidTimestamp(ts)))
      && (outcome.Parsed? && outcome.record.timestamp == "" <==>
            parseTime(ts).Some? && Before(parseTime(ts).value, cutoff))
      && (outcome.Parsed? && outcome.record.timestamp != "" ==>
            outcome.record == Record(TrimLeadingZeros(fields[1]), ts, ValuesFrom(fields, 8)))
      && (parseTime(ts).Some? && !Before(parseTime(ts).value, cutoff) ==>
            outcome == Parsed(Record(TrimLeadingZeros(fields[1]), ts, ValuesFrom(fields, 8))))
  {
  }

  /** parseRow as the program runs it: the same branches as ParseLine,
      written as statements so that the triple walk is the loop of
      CollectValues. ParseLine stays the definition; this method only
      connects the loop to it. */
  method ParseRow(line: string, parseTime: string -> Option<int>, cutoff: int) returns (outcome: ParseOutcome)
    ensures outcome == ParseLine(line, parseTime, cutoff)
  {
    var fields := Split(line);
    if |fields| < 7 {
      return Failed(InvalidRow(line));
    }
    if |fields| < 8 {
      // the guard let a 7-field line through; reading fields[7] panics
      return IndexPanic;
    }
    var stationId := TrimLeadingZeros(fields[1]);
    var ts := Timestamp(fields);
    var recordTime := parseTime(ts);
    if recordTime.None? {
      return Failed(InvalidTimestamp(ts));
    }
    if Before(recordTime.value, cutoff) {
      return Parsed(TooOld());
    }
    var values := CollectValues(fields);
    return Parsed(Record(stationId, ts, values));
  }

  /** parseRow with the guard it needs (`len(fields) < 8`): a line short
      of the year field is an invalid row instead of a panic, and every
      other line is parsed exactly as before. */
  function ParseLineGuarded(line: string, parseTime: string -> Option<int>, cutoff: int): (outcome: ParseOutcome)
    ensures !outcome.IndexPanic?
    ensures outcome == Failed(InvalidRow(line)) <==> |Split(line)| < 8
    ensures |Split(line)| != 7 ==> outcome == ParseLine(line, parseTime, cutoff)
  {
    if |Split(line)| < 8 then Failed(InvalidRow(line)) else ParseLine(line, parseTime, cutoff)
  }
}
