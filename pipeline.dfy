/** The per-line loop of processFile: keep the lines tagged `S,`, parse
    them, skip failures and too-old records, and project every kept
    record onto the required columns as one output row. */
module Pipeline {
  import opened Text
  import opened Tables
  import opened Records

  /** Go's `values[key]`: a key that is absent reads as "". */
  function ValueOrEmpty(values: map<string, string>, key: string): (cell: string)
    ensures key in values ==> cell == values[key]
    ensures key !in values ==> cell == ""
  {
    if key in values then values[key] else ""
  }

  /** One cell per name, in the order of `names`. */
  function Columns(values: map<string, string>, names: seq<string>): (cells: seq<string>)
    ensures |cells| == |names|
    ensures forall k :: 0 <= k < |names| ==> cells[k] == ValueOrEmpty(values, names[k])
  {
    if names == [] then [] else [ValueOrEmpty(values, names[0])] + Columns(values, names[1..])
  }

  /** The number of cells in every output row: station, timestamp, and the
      required measurements. */
  function RowWidth(): nat {
    2 + |RequiredMeasurements()|
  }

  /** The output row of a kept record: 13 cells, the station ID, the
      timestamp, then the value of each required measurement in order,
      "" where the record has none. */
  function RowOf(record: Record): (row: seq<string>)
    ensures |row| == RowWidth() == 13
    ensures row[0] == record.stationId && row[1] == record.timestamp
    ensures forall k :: 2 <= k < |row| ==>
      row[k] == ValueOrEmpty(record.values, RequiredMeasurements()[k - 2])
  {
    [record.stationId, record.timestamp] + Columns(record.values, RequiredMeasurements())
  }

  /** The row built by appending one cell per required measurement. */
  method ProjectRow(record: Record) returns (row: seq<string>)
    ensures row == RowOf(record)
  {
    row := [record.stationId, record.timestamp];
    var required := RequiredMeasurements();
    for k := 0 to |required|
      invariant |row| == 2 + k
      invariant row[0] == record.stationId && row[1] == record.timestamp
      invariant forall j :: 2 <= j < |row| ==> row[j] == ValueOrEmpty(record.values, required[j - 2])
    {
      row := row + [ValueOrEmpty(record.values, required[k])];
    }
    ghost var expected := RowOf(record);
    assert |row| == |expected|;
    forall j | 0 <= j < |row| ensures row[j] == expected[j] {
    }
  }

  /** A column of a parsed line holds the value of the last triple that
      resolves to its measurement, with "*" read as "". */
  lemma ColumnFromLastTriple(fields: seq<string>, k: nat, j: nat, stationId: string, ts: string)
    requires k < |RequiredMeasurements()|
    requires OnStride(8, j) && Contributes(fields, j) && NameAt(fields, j) == RequiredMeasurements()[k]
    requires forall j' :: OnStride(j + 3, j') && Contributes(fields, j') ==> NameAt(fields, j') != NameAt(fields, j)
    ensures RowOf(Record(stationId, ts, ValuesFrom(fields, 8)))[2 + k] == NormalizeMissing(fields[j + 2])
  {
    LastTripleWins(fields, 8, j);
  }

  /** A column whose measurement no triple resolves to (unknown IDs, or a
      trailing pair without a value) is "" in the row. */
  lemma ColumnEmptyWithoutTriple(fields: seq<string>, k: nat, stationId: string, ts: string)
    requires k < |RequiredMeasurements()|
    requires forall j :: OnStride(8, j) && Contributes(fields, j) ==> NameAt(fields, j) != RequiredMeasurements()[k]
    ensures RowOf(Record(stationId, ts, ValuesFrom(fields, 8)))[2 + k] == ""
  {
    NameNotLater(fields, 8, RequiredMeasurements()[k]);
  }

  /** A column of a parsed line holds the value of the last triple that
      carries that column's own ID pair (and a value field), with "*"
      read as "". */
  lemma ColumnFromLastIdPair(fields: seq<string>, k: nat, j: nat, stationId: string, ts: string)
    requires k < |RequiredIds()|
    requires OnStride(8, j) && j + 2 < |fields| && (fields[j], fields[j + 1]) == RequiredIds()[k]
    requires forall j': nat :: OnStride(j + 3, j') && j' + 2 < |fields| ==> (fields[j'], fields[j' + 1]) != RequiredIds()[k]
    ensures k < |RequiredMeasurements()|
    ensures RowOf(Record(stationId, ts, ValuesFrom(fields, 8)))[2 + k] == NormalizeMissing(fields[j + 2])
  {
    RequiredColumnIds(k);
    assert NameAt(fields, j) == RequiredMeasurements()[k];
    forall j': nat | OnStride(j + 3, j') && Contributes(fields, j')
      ensures NameAt(fields, j') != NameAt(fields, j)
    {
      if NameAt(fields, j') == RequiredMeasurements()[k] {
        RequiredColumnUnique(k, fields[j'], fields[j' + 1]);
      }
    }
    ColumnFromLastTriple(fields, k, j, stationId, ts);
  }

  /** What the loop does with one line. */
  datatype LineResult =
    | NotData                   // no `S,` prefix
    | Rejected(error: ParseError) // parseRow failed; logged and skipped
    | Skipped                   // older than the cutoff
    | Emit(row: seq<string>)    // one row written
    | Abort                     // the index panic of a 7-field line ends the run

  /** One iteration of the loop. A row is written exactly for a data line
      that parses to a record with a non-empty timestamp, and it is that
      record's projection; only a 7-field data line stops the run. */
  function ProcessLine(line: string, parseTime: string -> Option<int>, cutoff: int): (result: LineResult)
    ensures !HasPrefix(line, "S,") ==> result == NotData
    ensures result.Emit? <==>
      HasPrefix(line, "S,") && ParseLine(line, parseTime, cutoff).Parsed?
      && ParseLine(line, parseTime, cutoff).record.timestamp != ""
    ensures result.Emit? ==>
      result.row == RowOf(ParseLine(line, parseTime, cutoff).record) && result.row[1] != ""
    ensures result.Abort? <==> HasPrefix(line, "S,") && |Split(line)| == 7
  {
    if !HasPrefix(line, "S,") then NotData
    else
      match ParseLine(line, parseTime, cutoff)
      case IndexPanic => Abort
      case Failed(e) => Rejected(e)
      case Parsed(record) => if record.timestamp == "" then Skipped else Emit(RowOf(record))
  }

  /** The rows written for a sequence of lines, and whether the run was
      cut short by a panic (the rows before it are still written). */
  datatype Conversion = Conversion(rows: seq<seq<string>>, aborted: bool)

  /** The loop over `lines`, given what it does with each line: the rows of
      the lines that emit one, in order, up to the first line that aborts.
      There are never more rows than lines. */
  function Fold(lines: seq<string>, step: string -> LineResult): (c: Conversion)
    ensures |c.rows| <= |lines|
  {
    if lines == [] then Conversion([], false)
    else
      match step(lines[0])
      case Emit(row) =>
        var rest := Fold(lines[1..], step);
        Conversion([row] + rest.rows, rest.aborted)
      case Abort => Conversion([], true)
      case _ => Fold(lines[1..], step)
  }

  /** Every row written is the row of one of the lines. */
  lemma {:induction false} FoldRowsFromLines(lines: seq<string>, step: string -> LineResult)
    ensures forall k :: 0 <= k < |Fold(lines, step).rows| ==>
      exists j :: 0 <= j < |lines| && step(lines[j]) == Emit(Fold(lines, step).rows[k])
  {
    if lines != [] {
      FoldRowsFromLines(lines[1..], step);
      var rows, rest := Fold(lines, step).rows, Fold(lines[1..], step).rows;
      assert rows == if step(lines[0]).Emit? then [step(lines[0]).row] + rest
                     else if step(lines[0]).Abort? then [] else rest;
      forall k | 0 <= k < |rows|
        ensures exists j :: 0 <= j < |lines| && step(lines[j]) == Emit(rows[k])
      {
        if step(lines[0]).Emit? && k == 0 {
          assert step(lines[0]) == Emit(rows[k]);
        } else {
          var k' := if step(lines[0]).Emit? then k - 1 else k;
          assert rows[k] == rest[k'];
          var j :| 0 <= j < |lines[1..]| && step(lines[1..][j]) == Emit(rest[k']);
          assert step(lines[j + 1]) == Emit(rows[k]);
        }
      }
    } else {
      assert Fold(lines, step).rows == [];
    }
  }

  /** Converting one stretch of lines after another gives the rows of the
      first followed by those of the second, unless the first was cut short. */
  lemma {:induction false} FoldAppend(a: seq<string>, b: seq<string>, step: string -> LineResult)
    ensures var first := Fold(a, step);
      Fold(a + b, step) ==
        if first.aborted then first
        else Conversion(first.rows + Fold(b, step).rows, Fold(b, step).aborted)
  {
    if a == [] {
      assert a + b == b;
    } else {
      assert (a + b)[0] == a[0];
      assert (a + b)[1..] == a[1..] + b;
      FoldAppend(a[1..], b, step);
      var tail, second := Fold(a[1..], step), Fold(b, step);
      var result := step(a[0]);
      if result.Emit? {
        assert [result.row] + (tail.rows + second.rows) == ([result.row] + tail.rows) + second.rows;
      }
    }
  }

  /** The run is cut short exactly when some line aborts. */
  lemma {:induction false} FoldAbortsIff(lines: seq<string>, step: string -> LineResult)
    ensures Fold(lines, step).aborted <==> exists k :: 0 <= k < |lines| && step(lines[k]).Abort?
  {
    if lines != [] {
      FoldAbortsIff(lines[1..], step);
      if !step(lines[0]).Abort? {
        assert forall k :: 1 <= k < |lines| ==> lines[k] == lines[1..][k - 1];
      }
    }
  }

  /** Lines that neither emit nor abort write nothing. */
  lemma {:induction false} FoldSilent(lines: seq<string>, step: string -> LineResult)
    requires forall k :: 0 <= k < |lines| ==> !step(lines[k]).Emit? && !step(lines[k]).Abort?
    ensures Fold(lines, step) == Conversion([], false)
  {
    if lines != [] {
      FoldSilent(lines[1..], step);
    }
  }

  /** processFile's decision for each line, for a fixed parser and cutoff. */
  function Step(parseTime: string -> Option<int>, cutoff: int): string -> LineResult {
    line => ProcessLine(line, parseTime, cutoff)
  }

  /** The rows processFile writes for `lines`: every one has 13 cells and
      a non-empty timestamp, and is the row of some data line. */
  function Convert(lines: seq<string>, parseTime: string -> Option<int>, cutoff: int): (c: Conversion)
    ensures forall k :: 0 <= k < |c.rows| ==> |c.rows[k]| == RowWidth() && c.rows[k][1] != ""
    ensures forall k :: 0 <= k < |c.rows| ==>
      exists j :: 0 <= j < |lines| && ProcessLine(lines[j], parseTime, cutoff) == Emit(c.rows[k])
  {
    FoldRowsFromLines(lines, Step(parseTime, cutoff));
    Fold(lines, Step(parseTime, cutoff))
  }

  /** The conversion of a line followed by more lines. */
  lemma FoldCons(line: string, more: seq<string>, step: string -> LineResult)
    ensures var rest := Fold(more, step);
      Fold([line] + more, step) ==
        match step(line)
        case Emit(row) => Conversion([row] + rest.rows, rest.aborted)
        case Abort => Conversion([], true)
        case _ => rest
  {
    assert ([line] + more)[0] == line;
    assert ([line] + more)[1..] == more;
  }

  /** One turn of the loop: the rows so far followed by the conversion of
      the lines from `i` on, after the decision for line `i`. */
  lemma LoopStep(lines: seq<string>, i: nat, step: string -> LineResult, rows: seq<seq<string>>)
    requires i < |lines|
    ensures var here, rest := Fold(lines[i..], step), Fold(lines[i + 1..], step);
      Conversion(rows + here.rows, here.aborted) ==
        match step(lines[i])
        case Emit(row) => Conversion((rows + [row]) + rest.rows, rest.aborted)
        case Abort => Conversion(rows, true)
        case _ => Conversion(rows + rest.rows, rest.aborted)
  {
    assert lines[i..] == [lines[i]] + lines[i + 1..];
    FoldCons(lines[i], lines[i + 1..], step);
    var rest := Fold(lines[i + 1..], step);
    var here := Fold(lines[i..], step);
    match step(lines[i])
    case Emit(row) =>
      assert here.rows == [row] + rest.rows;
      assert rows + ([row] + rest.rows) == (rows + [row]) + rest.rows;
    case Abort =>
      assert here.rows == [];
      assert rows + [] == rows;
    case _ =>
      assert here == rest;
  }

  /** The body of processFile's loop for one line: skip untagged lines,
      parse, skip (and log) failures, skip too-old records, otherwise build
      the row. The same branches as ProcessLine, which stays the definition;
      this method only routes the loops of ParseRow and ProjectRow into
      ProcessLines. */
  method HandleLine(line: string, parseTime: string -> Option<int>, cutoff: int) returns (result: LineResult)
    ensures result == ProcessLine(line, parseTime, cutoff) == Step(parseTime, cutoff)(line)
  {
    if !HasPrefix(line, "S,") {
      return NotData;
    }
    var outcome := ParseRow(line, parseTime, cutoff);
    if outcome.IndexPanic? {
      return Abort;
    }
    if outcome.Failed? {
      return Rejected(outcome.error);
    }
    var record := outcome.record;
    if record.timestamp == "" {
      return Skipped;
    }
    var row := ProjectRow(record);
    return Emit(row);
  }

  /** The loop of processFile over the lines of one file: the rows it
      writes, in order, and whether a panic ended it. */
  method ProcessLines(lines: seq<string>, parseTime: string -> Option<int>, cutoff: int)
    returns (rows: seq<seq<string>>, aborted: bool)
    ensures Conversion(rows, aborted) == Convert(lines, parseTime, cutoff)
  {
    ghost var step := Step(parseTime, cutoff);
    rows, aborted := [], false;
    for i := 0 to |lines|
      invariant Fold(lines, step) == Conversion(rows + Fold(lines[i..], step).rows, Fold(lines[i..], step).aborted)
    {
      var result := HandleLine(lines[i], parseTime, cutoff);
      LoopStep(lines, i, step, rows);
      if result.Abort? {
        aborted := true;
        return;
      }
      if result.Emit? {
        rows := rows + [result.row];
      }
    }
    assert lines[|lines|..] == [];
    assert rows + [] == rows;
  }

  /** Rows follow the order of their lines: converting one stretch of
      lines after another (the files of a run, one after the other) writes
      the rows of the first, then those of the second, unless the first
      was cut short. */
  lemma ConvertAppend(a: seq<string>, b: seq<string>, parseTime: string -> Option<int>, cutoff: int)
    ensures var first := Convert(a, parseTime, cutoff);
      Convert(a + b, parseTime, cutoff) ==
        if first.aborted then first
        else Conversion(first.rows + Convert(b, parseTime, cutoff).rows, Convert(b, parseTime, cutoff).aborted)
  {
    FoldAppend(a, b, Step(parseTime, cutoff));
  }

  /** Lines without the `S,` tag write nothing and never stop the run. */
  lemma NonDataLinesIgnored(lines: seq<string>, parseTime: string -> Option<int>, cutoff: int)
    requires forall k :: 0 <= k < |lines| ==> !HasPrefix(lines[k], "S,")
    ensures Convert(lines, parseTime, cutoff) == Conversion([], false)
  {
    FoldSilent(lines, Step(parseTime, cutoff));
  }

  /** The run is cut short exactly when some data line has 7 fields. */
  lemma AbortsIffSevenFieldLine(lines: seq<string>, parseTime: string -> Option<int>, cutoff: int)
    ensures Convert(lines, parseTime, cutoff).aborted <==>
      exists k :: 0 <= k < |lines| && HasPrefix(lines[k], "S,") && |Split(lines[k])| == 7
  {
    FoldAbortsIff(lines, Step(parseTime, cutoff));
  }

  /** A record line that stops after the month (`S,0012,9,5,0,15,6`,
      say) lacks its year: it passes the field-count guard and stops the
      run, so the lines after it write nothing. */
  lemma YearlessLineAbortsRun(station: string, hour: string, minute: string, second: string,
                              day: string, month: string, rest: seq<string>,
                              parseTime: string -> Option<int>, cutoff: int)
    requires CommaFree(station) && CommaFree(hour) && CommaFree(minute)
    requires CommaFree(second) && CommaFree(day) && CommaFree(month)
    ensures var line := Join(["S", station, hour, minute, second, day, month]);
      Convert([line] + rest, parseTime, cutoff) == Conversion([], true)
  {
    var fields := ["S", station, hour, minute, second, day, month];
    var line := Join(fields);
    SplitOfJoin(fields);
    assert line == "S" + "," + Join(fields[1..]);
    assert HasPrefix(line, "S,");
    assert ([line] + rest)[0] == line;
    assert ProcessLine(line, parseTime, cutoff) == Abort;
  }

  /** The fields of the worked example line. */
  function ExampleFields(): seq<string> {
    ["S", "0012", "9", "5", "0", "15", "6", "2023", "1", "2", "21.5"]
  }

  /** Its one triple (1, 2, 21.5) is the average temperature. */
  lemma ExampleValues()
    ensures ValuesFrom(ExampleFields(), 8) == map["Temperature_Avg" := "21.5"]
  {
    var fields := ExampleFields();
    assert fields[8] == "1" && fields[9] == "2" && fields[10] == "21.5";
    assert MeasurementName("1", "2") == "Temperature_Avg";
    assert ValuesFrom(fields, 11) == map[];
  }
}
