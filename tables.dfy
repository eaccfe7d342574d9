/** The converter's two static tables: the lookup from (measurement ID,
    processing ID) to parameter name, and the fixed order of the output
    columns that follow the station and timestamp. */
module Tables {

  /** measurementMap: measurement ID, then processing ID, to parameter name. */
  function MeasurementTable(): map<string, map<string, string>> {
    map[
      "1"   := map["2" := "Temperature_Avg", "3" := "Temperature_Min", "4" := "Temperature_Max"],
      "2"   := map["2" := "Humidity_Avg", "3" := "Humidity_Min", "4" := "Humidity_Max"],
      "9"   := map["2" := "Windspeed_Avg", "3" := "Windspeed_Min", "4" := "Windspeed_Max"],
      "4"   := map["2" := "Wind Direction_Avg", "3" := "Wind Direction_Min", "4" := "Wind Direction_Max"],
      "13"  := map["2" := "Pressure_Avg", "3" := "Pressure_Min", "4" := "Pressure_Max"],
      "10"  := map["7" := "Rainfall_Acc"],
      "51"  := map["2" := "Soiltemperature10_Avg"],
      "101" := map["2" := "Soiltemperature20_Avg"],
      "151" := map["2" := "Soiltemperature50_Avg"],
      "201" := map["2" := "Soiltemperature100_Avg"]
    ]
  }

  /** requiredMeasurements: the measurement columns of an output row, in order. */
  function RequiredMeasurements(): seq<string> {
    [
      "Temperature_Avg", "Humidity_Avg", "Windspeed_Avg", "Wind Direction_Avg",
      "Pressure_Avg", "Rainfall_Acc", "Windspeed_Max", "Soiltemperature10_Avg",
      "Soiltemperature20_Avg", "Soiltemperature50_Avg", "Soiltemperature100_Avg"
    ]
  }

  /** Every parameter name the table can produce. */
  function TableNames(): set<string> {
    {
      "Temperature_Avg", "Temperature_Min", "Temperature_Max",
      "Humidity_Avg", "Humidity_Min", "Humidity_Max",
      "Windspeed_Avg", "Windspeed_Min", "Windspeed_Max",
      "Wind Direction_Avg", "Wind Direction_Min", "Wind Direction_Max",
      "Pressure_Avg", "Pressure_Min", "Pressure_Max",
      "Rainfall_Acc", "Soiltemperature10_Avg", "Soiltemperature20_Avg",
      "Soiltemperature50_Avg", "Soiltemperature100_Avg"
    }
  }

  /** The two-level lookup; "" when either ID is unknown. A non-empty
      result is exactly a hit in the table, and always a known name. */
  function MeasurementName(measurementId: string, processingId: string): (name: string)
    ensures name != "" <==>
      measurementId in MeasurementTable() && processingId in MeasurementTable()[measurementId]
    ensures name != "" ==> name in TableNames()
  {
    if measurementId in MeasurementTable() && processingId in MeasurementTable()[measurementId]
    then MeasurementTable()[measurementId][processingId]
    else ""
  }

  /** The (measurement ID, processing ID) pair behind each required
      column, in column order. */
  function RequiredIds(): seq<(string, string)> {
    [
      ("1", "2"), ("2", "2"), ("9", "2"), ("4", "2"), ("13", "2"), ("10", "7"),
      ("9", "4"), ("51", "2"), ("101", "2"), ("151", "2"), ("201", "2")
    ]
  }

  /** The required columns are distinct names from the table's set of
      parameter names. */
  lemma RequiredAreTableNames()
    ensures forall k :: 0 <= k < |RequiredMeasurements()| ==> RequiredMeasurements()[k] in TableNames()
    ensures forall j, k :: 0 <= j < k < |RequiredMeasurements()| ==> RequiredMeasurements()[j] != RequiredMeasurements()[k]
  {
  }

  /** The lookup produces every required column, from the pair listed for
      it, so every column of a row can be filled by some triple. */
  lemma RequiredAreProduced()
    ensures |RequiredIds()| == |RequiredMeasurements()|
    ensures forall k :: 0 <= k < |RequiredMeasurements()| ==>
      MeasurementName(RequiredIds()[k].0, RequiredIds()[k].1) == RequiredMeasurements()[k]
  {
    forall k | 0 <= k < |RequiredMeasurements()|
      ensures MeasurementName(RequiredIds()[k].0, RequiredIds()[k].1) == RequiredMeasurements()[k]
    {
      RequiredColumnIds(k);
    }
  }

  /** Column `k` is produced by its ID pair. */
  lemma RequiredColumnIds(k: nat)
    requires k < |RequiredMeasurements()|
    ensures |RequiredIds()| == |RequiredMeasurements()|
    ensures MeasurementName(RequiredIds()[k].0, RequiredIds()[k].1) == RequiredMeasurements()[k]
  {
  }

  /** ... and by no other pair. */
  lemma RequiredColumnUnique(k: nat, m: string, p: string)
    requires k < |RequiredMeasurements()|
    requires MeasurementName(m, p) == RequiredMeasurements()[k]
    ensures k < |RequiredIds()| && (m, p) == RequiredIds()[k]
  {
  }
}
