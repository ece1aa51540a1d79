/** One run of the page for an uploaded table: check the schema, work out
    the widgets' defaults, filter, and hand the filtered rows to the charts.
    The page re-runs from scratch on every interaction, so a run is a
    function of the table and the widget state. */
module Pipeline {
  import opened Wrappers
  import opened Sequences
  import Schema
  import opened Filtering
  import Charts

  /** An uploaded table once read: its header and its rows. */
  datatype Table<P> = Table(columns: seq<string>, rows: seq<Row<P>>)

  /** The widget state: untouched (their defaults) or a choice of the user's. */
  datatype Choice = Defaults | Chosen(selection: Selection)

  /** What the page shows for one run. */
  datatype Outcome<P> =
    | SchemaError(message: string)
    | ProcessingError
    | Rendered(selection: Selection, filtered: seq<Row<P>>, charts: seq<Charts.ChartSpec>)

  /** One run. A schema error stops it before anything else happens. A table
      without rows has no timestamp bounds; the model takes it that the
      time-range widget then fails and the page's catch-all error ends the
      run. Otherwise the rows are filtered with the widgets' selection and
      passed to all five charts. */
  function Run<P>(table: Table<P>, choice: Choice): (out: Outcome<P>)
    ensures out.SchemaError? <==> exists c :: c in Schema.RequiredColumns && c !in table.columns
    ensures out.SchemaError? ==> out.message == Schema.MissingColumnsError(Schema.Missing(table.columns))
    ensures out.ProcessingError? <==> Schema.Missing(table.columns) == [] && |table.rows| == 0
    ensures out.Rendered? ==> IsFilterOf(out.filtered, table.rows, out.selection)
    ensures out.Rendered? && choice.Chosen? ==> out.selection == choice.selection
    ensures out.Rendered? && choice.Defaults? ==> Some(out.selection) == DefaultSelection(table.rows)
    ensures out.Rendered? && choice.Defaults? ==> out.filtered == table.rows
    ensures out.Rendered? ==> |out.charts| == 5
  {
    var missing := Schema.Missing(table.columns);
    if missing != [] then
      SchemaError(Schema.MissingColumnsError(missing))
    else
      match DefaultSelection(table.rows)
      case None => ProcessingError
      case Some(defaults) =>
        var sel := if choice.Defaults? then defaults else choice.selection;
        FilterRowsIsFilter(table.rows, sel);
        assert choice.Defaults? ==> FilterRows(table.rows, sel) == table.rows by {
          if choice.Defaults? {
            DefaultSelectsEverything(table.rows);
          }
        }
        Rendered(sel, FilterRows(table.rows, sel), Charts.Charts())
  }

  /** Every city the charts colour by is one the user selected. */
  lemma RenderedCitiesSelected<P>(table: Table<P>, choice: Choice)
    requires Run(table, choice).Rendered?
    ensures forall i :: 0 <= i < |Run(table, choice).filtered| ==>
              Run(table, choice).filtered[i].city in Run(table, choice).selection.cities
  {
    var out := Run(table, choice);
    forall i | 0 <= i < |out.filtered| ensures out.filtered[i].city in out.selection.cities {
      assert Selected(out.filtered[i], out.selection);
    }
  }

  /** Rows for Austin and Boston on days 1 and 2: choosing only Austin and
      only day 1 leaves Austin's day-1 row. */
  lemma AustinDayOne()
    ensures Run(Table(Schema.RequiredColumns,
                      [Row("Austin", 1, 0), Row("Boston", 1, 1), Row("Austin", 2, 2), Row("Boston", 2, 3)]),
                Chosen(Selection(["Austin"], 1, 1))).filtered
            == [Row("Austin", 1, 0)]
  {
    var columns := Schema.RequiredColumns;
    assert Schema.Missing(columns) == [];
  }
}
