/**
  The row schema of utils/csv_handler.py: the eleven unit-labelled columns
  (`COLUMNS`) and `format_weather_data`, which maps a raw snapshot onto them.
  Each field present under `current_data` is copied unchanged; a missing one
  takes a fixed default.
 */
module CsvSchema {
  import opened Values

  /** The column labels, in file order. */
  const Columns: seq<string> := [
    "time",
    "temperature_2m (°C)",
    "relative_humidity_2m (%)",
    "precipitation (mm)",
    "rain (mm)",
    "weather_code (wmo code)",
    "cloud_cover (%)",
    "surface_pressure (hPa)",
    "wind_speed_10m (km/h)",
    "wind_direction_10m (°)",
    "is_day ()"
  ]

  /** The raw field read from `current_data` for each column, index-aligned with `Columns`. */
  const Fields: seq<string> := [
    "time",
    "temperature_2m",
    "relative_humidity_2m",
    "precipitation",
    "rain",
    "weather_code",
    "cloud_cover",
    "surface_pressure",
    "wind_speed_10m",
    "wind_direction_10m",
    "is_day"
  ]

  const ColumnCount := 11

  /** The set of column labels, i.e. the keys of every normalised row. */
  function ColumnSet(): set<string> {
    set i | 0 <= i < |Columns| :: Columns[i]
  }

  lemma ColumnSetIsDisplay()
    ensures ColumnSet() == {
      "time", "temperature_2m (°C)", "relative_humidity_2m (%)", "precipitation (mm)",
      "rain (mm)", "weather_code (wmo code)", "cloud_cover (%)", "surface_pressure (hPa)",
      "wind_speed_10m (km/h)", "wind_direction_10m (°)", "is_day ()"
    }
  {
    assert Columns[0] == "time";
    assert Columns[1] == "temperature_2m (°C)";
    assert Columns[2] == "relative_humidity_2m (%)";
    assert Columns[3] == "precipitation (mm)";
    assert Columns[4] == "rain (mm)";
    assert Columns[5] == "weather_code (wmo code)";
    assert Columns[6] == "cloud_cover (%)";
    assert Columns[7] == "surface_pressure (hPa)";
    assert Columns[8] == "wind_speed_10m (km/h)";
    assert Columns[9] == "wind_direction_10m (°)";
    assert Columns[10] == "is_day ()";
  }

  /** A field that is the time stamp or one of the ten measurements. */
  predicate IsKnownField(k: string) {
    k in Fields
  }

  /** The value a missing measurement column takes: the float 0.00 for
      precipitation and rain, the integer 0 for the other eight. */
  function MeasurementDefault(i: nat): (v: Value)
    requires 1 <= i < ColumnCount
  {
    if Columns[i] == "precipitation (mm)" || Columns[i] == "rain (mm)" then Real(0.0) else Int(0)
  }

  /** What column `i` of a normalised row holds for a given `current_data`. */
  ghost predicate ColumnFaithful(current: map<string, Value>, nowStamp: string, row: map<string, Value>, i: nat)
    requires i < ColumnCount
  {
    && Columns[i] in row
    && (Fields[i] in current ==> row[Columns[i]] == current[Fields[i]])
    && (Fields[i] !in current && i == 0 ==> row[Columns[i]] == Str(nowStamp))
    && (Fields[i] !in current && i > 0 ==> row[Columns[i]] == MeasurementDefault(i))
  }

  /** The dictionary built from `current_data`. `nowStamp` is the current
      local time already rendered as `YYYY-MM-DDTHH:MM`. */
  function FormatCurrent(current: map<string, Value>, nowStamp: string): (row: map<string, Value>)
    ensures row.Keys == ColumnSet()
  {
    ColumnSetIsDisplay();
    map[
      "time" := Get(current, "time", Str(nowStamp)),
      "temperature_2m (°C)" := Get(current, "temperature_2m", Int(0)),
      "relative_humidity_2m (%)" := Get(current, "relative_humidity_2m", Int(0)),
      "precipitation (mm)" := Get(current, "precipitation", Real(0.0)),
      "rain (mm)" := Get(current, "rain", Real(0.0)),
      "weather_code (wmo code)" := Get(current, "weather_code", Int(0)),
      "cloud_cover (%)" := Get(current, "cloud_cover", Int(0)),
      "surface_pressure (hPa)" := Get(current, "surface_pressure", Int(0)),
      "wind_speed_10m (km/h)" := Get(current, "wind_speed_10m", Int(0)),
      "wind_direction_10m (°)" := Get(current, "wind_direction_10m", Int(0)),
      "is_day ()" := Get(current, "is_day", Int(0))
    ]
  }

  /** Every column of the normalised row copies its field when present and
      takes its default otherwise. */
  lemma FormatCurrentFollowsSchema(current: map<string, Value>, nowStamp: string)
    ensures forall i :: 0 <= i < ColumnCount ==> ColumnFaithful(current, nowStamp, FormatCurrent(current, nowStamp), i)
  {
    FaithfulColumnsA(current, nowStamp);
    FaithfulColumnsB(current, nowStamp);
    FaithfulColumnsC(current, nowStamp);
    FaithfulColumnsD(current, nowStamp);
  }

  // The eleven column lookups are split in four groups to keep each proof small.

  lemma FaithfulColumnsA(current: map<string, Value>, nowStamp: string)
    ensures forall i :: 0 <= i < 3 ==> ColumnFaithful(current, nowStamp, FormatCurrent(current, nowStamp), i)
  {
    var row := FormatCurrent(current, nowStamp);
    assert ColumnFaithful(current, nowStamp, row, 0);
    assert ColumnFaithful(current, nowStamp, row, 1);
    assert ColumnFaithful(current, nowStamp, row, 2);
  }

  lemma FaithfulColumnsB(current: map<string, Value>, nowStamp: string)
    ensures forall i :: 3 <= i < 6 ==> ColumnFaithful(current, nowStamp, FormatCurrent(current, nowStamp), i)
  {
  }

  lemma FaithfulColumnsC(current: map<string, Value>, nowStamp: string)
    ensures forall i :: 6 <= i < 9 ==> ColumnFaithful(current, nowStamp, FormatCurrent(current, nowStamp), i)
  {
  }

  lemma FaithfulColumnsD(current: map<string, Value>, nowStamp: string)
    ensures forall i :: 9 <= i < ColumnCount ==> ColumnFaithful(current, nowStamp, FormatCurrent(current, nowStamp), i)
  {
  }

  /** `weather_data.get("current_data", {})`, followed by the `.get` calls
      on it: these raise (`None`) when the entry is present but not an object. */
  function CurrentData(weatherData: Snapshot): (r: Option<map<string, Value>>)
    ensures "current_data" !in weatherData ==> r == Some(map[])
    ensures "current_data" in weatherData ==>
      (r.Some? <==> weatherData["current_data"].Dict?)
    ensures "current_data" in weatherData && weatherData["current_data"].Dict? ==>
      r == Some(weatherData["current_data"].entries)
  {
    if "current_data" !in weatherData then Some(map[])
    else match weatherData["current_data"]
      case Dict(entries) => Some(entries)
      case _ => None
  }

  /** `format_weather_data`: `None` stands for the exception it raises. */
  function FormatWeatherData(weatherData: Snapshot, nowStamp: string): (r: Option<map<string, Value>>)
    ensures r.Some? <==> ("current_data" !in weatherData || weatherData["current_data"].Dict?)
    ensures r.Some? ==> r.value.Keys == ColumnSet()
    ensures r.Some? ==> r.value == FormatCurrent(CurrentData(weatherData).value, nowStamp)
  {
    match CurrentData(weatherData)
    case Some(current) => Some(FormatCurrent(current, nowStamp))
    case None => None
  }

  /** The one-row `DataFrame(..., columns=COLUMNS)`: the values in column order. */
  function RowOf(formatted: map<string, Value>): (cells: seq<Value>)
    requires ColumnSet() <= formatted.Keys
    ensures |cells| == ColumnCount
    ensures forall i :: 0 <= i < ColumnCount ==> cells[i] == formatted[Columns[i]]
  {
    seq(ColumnCount, i requires 0 <= i < ColumnCount => formatted[Columns[i]])
  }

  // ---------------------------------------------------------------------
  // Properties of the normalisation
  // ---------------------------------------------------------------------

  /** The eleven labels are pairwise distinct, so every normalised row has exactly eleven keys. */
  lemma ColumnSetHasElevenLabels()
    ensures |ColumnSet()| == ColumnCount
    ensures forall i, j :: 0 <= i < j < ColumnCount ==> Columns[i] != Columns[j]
  {
    assert forall i, j :: 0 <= i < j < ColumnCount ==> Columns[i] != Columns[j];
    DistinctElementsCount(Columns);
  }

  /** A sequence without repetitions has as many distinct elements as entries. */
  lemma {:induction false} DistinctElementsCount<T>(s: seq<T>)
    requires forall i, j :: 0 <= i < j < |s| ==> s[i] != s[j]
    ensures |set i | 0 <= i < |s| :: s[i]| == |s|
    decreases |s|
  {
    if |s| > 0 {
      var init := s[..|s| - 1];
      DistinctElementsCount(init);
      var all := set i | 0 <= i < |s| :: s[i];
      var front := set i | 0 <= i < |init| :: init[i];
      assert all == front + {s[|s| - 1]} by {
        forall x | x in all ensures x in front + {s[|s| - 1]} {
          var i :| 0 <= i < |s| && s[i] == x;
          if i < |s| - 1 { assert init[i] == x; }
        }
      }
      assert s[|s| - 1] !in front;
    }
  }

  /** Normalisation yields exactly the eleven columns, no more and no fewer. */
  lemma FormatHasExactlyTheColumns(weatherData: Snapshot, nowStamp: string)
    requires FormatWeatherData(weatherData, nowStamp).Some?
    ensures |FormatWeatherData(weatherData, nowStamp).value| == ColumnCount
    ensures forall k :: k in FormatWeatherData(weatherData, nowStamp).value <==> k in Columns
  {
    ColumnSetHasElevenLabels();
    var row := FormatWeatherData(weatherData, nowStamp).value;
    assert row.Keys == ColumnSet();
    forall k | k in Columns ensures k in row {
      var i :| 0 <= i < |Columns| && Columns[i] == k;
    }
  }

  /** Keys of `current_data` outside the eleven known fields never reach the row. */
  lemma FormatIgnoresUnknownFields(c1: map<string, Value>, c2: map<string, Value>, nowStamp: string)
    requires forall f :: IsKnownField(f) ==> (f in c1 <==> f in c2)
    requires forall f :: IsKnownField(f) && f in c1 ==> c1[f] == c2[f]
    ensures FormatCurrent(c1, nowStamp) == FormatCurrent(c2, nowStamp)
  {
  }

  /** A failed fetch (`{}`) or a snapshot without `current_data` gives the all-default row. */
  lemma MissingCurrentDataGivesDefaults(weatherData: Snapshot, nowStamp: string)
    requires "current_data" !in weatherData
    ensures FormatWeatherData(weatherData, nowStamp).Some?
    ensures FormatWeatherData(weatherData, nowStamp).value[Columns[0]] == Str(nowStamp)
    ensures forall i :: 1 <= i < ColumnCount ==>
      FormatWeatherData(weatherData, nowStamp).value[Columns[i]] == MeasurementDefault(i)
  {
  }
}
