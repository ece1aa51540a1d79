/** The five chart descriptions the page hands to the plotting library, each
    fed the filtered table. Only the columns, labels and titles are modelled;
    drawing is the library's business. */
module Charts {
  import opened Wrappers
  import Schema

  datatype ChartKind = Line | Scatter | Bar | Area

  /** One chart call: its kind, the x column, the y column(s), the column
      that colours the series (if any), the bar mode passed explicitly (if
      any), the axis-label overrides, and the title. */
  datatype ChartSpec = ChartSpec(
    kind: ChartKind,
    x: string,
    y: seq<string>,
    color: Option<string>,
    barmode: Option<string>,
    labels: seq<(string, string)>,
    title: string)

  /** The table columns a chart reads. */
  function ColumnsRead(c: ChartSpec): seq<string>
  {
    [c.x] + c.y + (if c.color.Some? then [c.color.value] else [])
  }

  const TemperatureChart: ChartSpec :=
    ChartSpec(Line, "timestamp", ["temperature"], Some("city_name"), None,
              [("temperature", "Temperature (°F)")], "Temperature Over Time")

  const HumidityDewPointChart: ChartSpec :=
    ChartSpec(Scatter, "humidity", ["dew_point"], Some("city_name"), None,
              [("humidity", "Humidity (%)"), ("dew_point", "Dew Point (°F)")], "Humidity vs Dew Point")

  const WindCloudinessChart: ChartSpec :=
    ChartSpec(Bar, "timestamp", ["wind_speed", "cloudiness"], None, Some("group"),
              [("value", "Value"), ("timestamp", "Time")], "Wind Speed and Cloudiness Over Time")

  const UvIndexChart: ChartSpec :=
    ChartSpec(Area, "timestamp", ["uv_index"], Some("city_name"), None,
              [("uv_index", "UV Index")], "UV Index Over Time")

  /** Unlike the wind chart, this bar chart passes no bar mode, so the
      library's default applies. */
  const PrecipitationChart: ChartSpec :=
    ChartSpec(Bar, "timestamp", ["rain_volume", "snow_volume"], None, None,
              [("value", "Volume (mm)"), ("timestamp", "Time")], "Rain and Snow Volume Over Time")

  /** The five charts, in page order. Every column any of them reads is one
      of the required columns, and the charts coloured by series colour by
      city. */
  function Charts(): (charts: seq<ChartSpec>)
    ensures |charts| == 5
    ensures forall i, col :: 0 <= i < |charts| && col in ColumnsRead(charts[i]) ==> col in Schema.RequiredColumns
    ensures forall i :: 0 <= i < |charts| && charts[i].color.Some? ==> charts[i].color.value == "city_name"
  {
    [TemperatureChart, HumidityDewPointChart, WindCloudinessChart, UvIndexChart, PrecipitationChart]
  }

  /** A table that passed the schema check has every column the charts read. */
  lemma ChartsReadPresentColumns(columns: seq<string>)
    requires Schema.Missing(columns) == []
    ensures forall i, col :: 0 <= i < |Charts()| && col in ColumnsRead(Charts()[i]) ==> col in columns
  {
  }
}
