# nesa2csv record pipeline in Dafny

This project models the part of the `nesa2csv` converter that turns
NESA weather-station log lines into CSV rows (`nesa2csv.go`):

- the two static tables: `measurementMap`, which maps a measurement ID and
  then a processing ID to a parameter name, and `requiredMeasurements`, the
  order of the output columns (module `Tables`);
- `zeroPad` and `parseRow` (module `Records`). `parseRow` splits a line on
  `,` and strips leading zeros from the station ID. It builds the
  `YYYY-MM-DDTHH:MM:SS` timestamp from fields 2–7, parses it and compares it
  to the cutoff. Then it walks the fields from index 8 on as (measurement
  ID, processing ID, value) triples. `strings.Split`, `strings.TrimLeft` and
  `strings.HasPrefix` are modelled in module `Text`;
- the per-line loop of `processFile` (module `Pipeline`). It keeps the lines
  tagged `S,`, skips lines that fail to parse and records that are too old,
  and writes each remaining record as a 13-cell row: the station ID, the
  timestamp, and the value of each required measurement, with `""` for a
  measurement that is absent.

The parts of `parseRow` and `processFile` that change state are written as
methods with loops. `CollectValues` is the stride-3 triple walk.
`ProjectRow` appends one cell per required column. `ProcessLines` is the
loop over the lines of a file. Each method is proved equal to a function:
`ValuesFrom`, `RowOf` and `Convert`. The properties are proved about those
functions.

Modelling choices:

- A `char` stands for one byte of the input, because Go's `len` and string
  indexing count bytes.
- `time.Parse` with layout `2006-01-02T15:04:05` is a parameter
  `parseTime: string -> Option<int>`, where `None` means a parse error. The
  cutoff is an `int`, and `time.Time.Before` is `<` on these instants.
- A line with exactly 7 fields passes the guard `len(fields) < 7`, but line
  60 then reads `fields[7]`, which is out of range. In Go this is a run-time
  panic. The model gives `parseRow` a third outcome, `IndexPanic`.
  `processFile` does not recover from it, so the run stops. The rows that
  were already written stay in the output, because the deferred `Flush` in
  `main` still runs while the panic unwinds. A `Conversion` is therefore
  the list of rows written plus an `aborted` flag. The pipeline keeps this
  as-written behaviour. The guarded variant is under "## Findings".
- The code never writes a header row. `processFile` receives `writeHeader`
  but never uses it, and its only `writer.Write` call writes a data row.
  This follows the code, although a header is part of the converter's
  description. No header is modelled.
- The code turns the value `*` into `""` for every triple that is stored.
  There is no variant in which `*` is kept.

## Model

| member | source | states |
|---|---|---|
| Tables.MeasurementTable | nesa2csv.go:16-27 | the definition is the contract: the ten measurement IDs with their processing IDs and parameter names, entry for entry |
| Tables.RequiredMeasurements | nesa2csv.go:29 | the definition is the contract: the 11 output columns in their order |
| Tables.MeasurementName | nesa2csv.go:16-27 | the two-level lookup gives a non-empty name exactly when both IDs are in `measurementMap`, and that name is one of the table's parameter names |
| Tables.RequiredAreTableNames | nesa2csv.go:29 | the 11 required columns are distinct, and each is in the set of parameter names |
| Tables.RequiredColumnIds | nesa2csv.go:16-29 | the lookup maps column `k`'s listed ID pair to column `k` |
| Tables.RequiredAreProduced | nesa2csv.go:16-29 | for every required column, the lookup maps its listed ID pair to it, so a triple can fill every column |
| Tables.RequiredColumnUnique | nesa2csv.go:16-29 | only a column's own ID pair maps to that column |
| Text.Split | nesa2csv.go:49 | `strings.Split(line, ",")` has one more field than the line has commas, no field holds a comma, and joining the fields with commas gives the line back |
| Text.JoinExtendsFirst | nesa2csv.go:49 | adding a character in front of the first field adds it in front of the joined line |
| Text.SplitAfterWord | nesa2csv.go:49 | splitting a comma-free word followed by text puts the word in front of the first field of the text |
| Text.SplitOfJoin | nesa2csv.go:49 | splitting comma-free fields joined with commas gives back exactly those fields, so Split and Join are inverses |
| Text.HasPrefix | nesa2csv.go:106 | the definition is the contract: `strings.HasPrefix`, the line starts with the prefix |
| Text.TrimLeadingZeros | nesa2csv.go:54 | `strings.TrimLeft(s, "0")` is a suffix of `s` that does not start with '0', and everything removed is '0' |
| Text.TrimLeadingZerosExamples | nesa2csv.go:54 | station "0012" becomes "12", and "000" becomes "" |
| Records.ZeroPad | nesa2csv.go:40-45 | padding never shortens a field, adds at most one character, and gives at least two characters to a non-empty field |
| Records.ZeroPadKeepsDigits | nesa2csv.go:40-45 | the padded field ends with the original one, whatever is added is a leading '0', and a character is added exactly when the field has one character |
| Records.ZeroPadIdempotent | nesa2csv.go:40-45 | padding twice is the same as padding once |
| Records.ZeroPadExamples | nesa2csv.go:40-45 | "5" becomes "05", while "05" and "" are unchanged |
| Records.Timestamp | nesa2csv.go:55-61 | the timestamp is never empty and starts with the year field followed by '-' |
| Records.TimestampLayout | nesa2csv.go:55-64 | with a 4-character year and 1- or 2-character parts, the timestamp has the 19-character `2006-01-02T15:04:05` layout, and each padded part sits at its position |
| Records.TimestampExample | nesa2csv.go:55-61 | `S,0012,9,5,0,15,6,2023,...` gives "2023-06-15T09:05:00" |
| Records.Before | nesa2csv.go:70 | the definition is the contract: `time.Time.Before` is `<` on the abstract instants |
| Records.TooOld | nesa2csv.go:71 | the record for a line older than the cutoff has an empty timestamp, an empty station and no values |
| Records.NormalizeMissing | nesa2csv.go:86-88 | the definition is the contract: "*" is stored as "" |
| Records.MissingMarker | nesa2csv.go:86-88 | a value is stored as "" exactly when it is "*" or "", and any value other than "*" is stored unchanged |
| Records.ValuesFrom | nesa2csv.go:74-91 | every key of the values map is a parameter name from `measurementMap` |
| Records.LastTripleWins | nesa2csv.go:84-89 | a triple on the stride that resolves to a name and has a value field decides that name's value when no later triple resolves to the same name; the value is the field, with "*" stored as "" |
| Records.NameNotLater | nesa2csv.go:79-84 | a name that no triple on the stride resolves to (unknown IDs, or a trailing pair with no value) is absent from the map |
| Records.WalkStep | nesa2csv.go:75-91 | one pass of the triple loop keeps the invariant "stored so far, overridden by the rest of the walk, is the whole walk's map" |
| Records.CollectValues | nesa2csv.go:74-91 | the stride-3 loop from index 8 while `i < len(fields)-1` builds exactly the last-triple-wins map `ValuesFrom(fields, 8)` |
| Records.ParseLine | nesa2csv.go:48-94 | "invalid row" exactly when there are fewer than 7 fields, an index panic exactly when there are 7, and a kept record's station is field 1 without its leading zeros |
| Records.ParseLineCases | nesa2csv.go:60-93 | with 8 or more fields: "invalid timestamp" exactly when the timestamp does not parse; the empty-timestamp sentinel exactly when the time is before the cutoff; a time that parses and is not before the cutoff gives the record (trimmed station, timestamp, last-triple-wins values), and every kept record is that one, so the empty-timestamp test at line 116 tells the two cases apart exactly |
| Records.ParseRow | nesa2csv.go:48-94 | parseRow with its triple loop returns the outcome `ParseLine` specifies; it repeats `ParseLine`'s branches only to connect the `CollectValues` loop to it |
| Records.ParseLineGuarded | nesa2csv.go:50 | with the guard `< 8` no line panics, "invalid row" happens exactly below 8 fields, and every line without exactly 7 fields is handled as before |
| Pipeline.ValueOrEmpty | nesa2csv.go:122 | Go's map read: the stored value for a present key, "" for an absent one |
| Pipeline.Columns | nesa2csv.go:121-123 | one cell per name, in order, each the map's value or "" when the key is absent |
| Pipeline.RowOf | nesa2csv.go:120-123 | a row has 13 cells: the station ID, the timestamp, then the value of each required measurement in order, with "" for an absent key |
| Pipeline.ProjectRow | nesa2csv.go:120-123 | appending one cell per required measurement builds exactly `RowOf(record)` |
| Pipeline.ColumnFromLastTriple | nesa2csv.go:74-91 | a row's column holds the value of the last triple that resolves to that column's measurement, with "*" stored as "" |
| Pipeline.ColumnFromLastIdPair | nesa2csv.go:74-91 | a column holds the value of the last triple that carries that column's own ID pair and has a value field, with "*" stored as "" |
| Pipeline.ColumnEmptyWithoutTriple | nesa2csv.go:79-84 | a column that no triple resolves to is "" in the row |
| Pipeline.ProcessLine | nesa2csv.go:104-125 | a line without `S,` is ignored; a row is written exactly for a tagged line that parses to a record with a non-empty timestamp, and that row is the record's projection; the run stops exactly on a tagged 7-field line |
| Pipeline.Fold | nesa2csv.go:104-126 | the loop never writes more rows than it reads lines |
| Pipeline.FoldRowsFromLines | nesa2csv.go:104-126 | every row written is the row that one of the lines emits |
| Pipeline.FoldAppend | nesa2csv.go:104-126 | converting one stretch of lines after another gives the rows of the first followed by those of the second, unless the first stopped the run |
| Pipeline.FoldAbortsIff | nesa2csv.go:104-126 | the run stops exactly when some line aborts |
| Pipeline.FoldSilent | nesa2csv.go:106-118 | lines that neither emit nor abort write nothing |
| Pipeline.FoldCons | nesa2csv.go:104-126 | the conversion of a line followed by more lines depends only on what that line does and on the conversion of the rest |
| Pipeline.LoopStep | nesa2csv.go:104-126 | one turn of the loop keeps "rows so far, followed by the conversion of the remaining lines, is the whole conversion" |
| Pipeline.Convert | nesa2csv.go:104-126 | every row written has 13 cells and a non-empty timestamp, and is the row that some input line emits |
| Pipeline.HandleLine | nesa2csv.go:105-125 | the loop body for one line returns the decision `ProcessLine` specifies; it repeats `ProcessLine`'s branches only to connect the `ParseRow` and `ProjectRow` loops to `ProcessLines` |
| Pipeline.ProcessLines | nesa2csv.go:104-126 | the loop over the lines returns exactly the rows and the stop flag of `Convert` |
| Pipeline.ConvertAppend | nesa2csv.go:104-126 | rows come out in line order: for a sequence of lines followed by another, the output is the rows of the first then those of the second, unless the first stopped the run |
| Pipeline.NonDataLinesIgnored | nesa2csv.go:106-108 | lines without the `S,` tag write nothing and never stop the run |
| Pipeline.AbortsIffSevenFieldLine | nesa2csv.go:50-60 | the run stops exactly when some tagged line has exactly 7 fields |
| Pipeline.YearlessLineAbortsRun | nesa2csv.go:50-60 | a tagged line that ends after the month field stops the run before any line after it is processed |
| Pipeline.ExampleValues | nesa2csv.go:74-91 | the triple `1,2,21.5` of the example line stores only `Temperature_Avg = 21.5` |

## Left out

- `main` (nesa2csv.go:134-186) is not modelled: argument parsing, `strconv.Atoi`, `time.Now().AddDate`, creating the output file and `filepath.Walk` are OS and I/O plumbing.
- Opening the file, `bufio.Scanner` and the scanner's error path (nesa2csv.go:97-103, 128-131) are file I/O. The lines of a file are an input sequence instead. Scanner line-length limits and `\r\n` handling are not modelled.
- `csv.Writer` quoting and escaping, and `Flush`, are library code that is not shown. The output is a sequence of string rows.
- `time.Parse` and `time.Time.Before` (calendar validity, leap years, time zones) are library code that is not shown. They are the `parseTime` parameter and `<` on integers.
- The console messages of `fmt.Printf` are not modelled. A rejected line carries its error (`Rejected`), but what is printed is not.
- `writeHeader` is not modelled, because the code never writes a header.
- Records.ZeroPad: its own contract gives only lengths. The exact result (a leading '0' for a one-character field, otherwise the field unchanged) is stated by `ZeroPadKeepsDigits`.
- Records.Timestamp: its own contract gives only the leading year and that the string is non-empty. The full layout is stated by `TimestampLayout` for fields of the widths the log format uses.

## Findings

| source | as written | input that shows it | evidently intended | confidence | as-written member | corrected member |
|---|---|---|---|---|---|---|
| nesa2csv.go:50 | the guard rejects only `len(fields) < 7`, but line 60 reads `fields[7]`, so a 7-field line panics with index out of range and ends the whole run | `S,0012,9,5,0,15,6` (a record line without its year) | reject lines with fewer than 8 fields as invalid rows (`len(fields) < 8`) and carry on with the next line | high; not executed | Pipeline.YearlessLineAbortsRun | Records.ParseLineGuarded |

The pipeline still uses the as-written `ParseLine`, so that its rows and
its stop flag match what the program does. `ParseLineGuarded` shows that
the corrected guard never panics and changes nothing for any other line.
