# WeatherView: schema check and row filter

WeatherView is a single-page app. The user uploads a CSV of per-city weather
observations, picks cities and a time window in the sidebar, and gets five
charts. This project models the part of a run that has logic of its own:

- the check that the ten required columns are present, and the error text that
  lists the missing ones (module `Schema`, with `Text` for the `", "` join);
- the sidebar's default selection: every distinct city, and the window from the
  earliest to the latest timestamp (module `Filtering`);
- the row filter: city among the chosen ones and timestamp in the closed window,
  input order kept (module `Filtering`);
- the five chart descriptions fed with the filtered rows (module `Charts`);
- one whole run, from header and rows to a schema error, the catch-all error or
  the rendered result (module `Pipeline`).

A row is `Row(city, ts, payload)`. Timestamps are integers, which stand for any
totally ordered instant. The measurement columns are an opaque type parameter `P`,
because the filter passes them through untouched. Everything is a pure function,
as in the source: the page re-runs from scratch on every interaction, and the
filter builds a new table without changing its input.

`Sequences.IsSubsequence` is the "drawn in order from" relation. Both the
missing-column list and the filtered table are stated in terms of it.
`Filtering.IsFilterOf` is an independent description of a filter result:
a subsequence of the rows, only selected rows, and each selected row as often as
the table holds it. `FilterRowsIsFilter` and `FilterUnique` together show that
`FilterRows` is the one sequence meeting that description.

## Model

| member | source | states |
|---|---|---|
| `Schema.MissingColumns` | app.py:19 | a name is in the result exactly when it is required and absent from the header; the result keeps the order of the required list (a subsequence of it), is no longer than it, and is empty exactly when every required name is present |
| `Schema.Missing` | app.py:19 | for the ten required names of line 11: a name is missing exactly when it is required and absent; the list is drawn in order from the required list, names nothing twice, and has at most 10 names |
| `Schema.RequiredColumnsNoDuplicates` | app.py:11 | the required list names no column twice |
| `Schema.MissingColumnsNoDuplicates` | app.py:19 | for any required list without repeats, the missing list has no repeats either |
| `Schema.MissingColumnsOnlyRequiredMatter` | app.py:19-20 | two headers that agree on which required names they contain give the same missing list, whatever their extra columns or column order |
| `Schema.ExtraColumnsIgnored` | app.py:19-20 | appending columns that are not required never changes the missing list |
| `Schema.RequiredColumnsHaveNoComma` | app.py:11 | no required name contains a comma |
| `Schema.MissingColumnsError` | app.py:21 | the error starts with the fixed prefix; for a non-empty list of comma-free names, the text after the prefix split at `", "` gives back exactly those names |
| `Schema.MissingColumnsErrorLists` | app.py:20-21 | when something is missing, the error starts with the fixed prefix, and the text after it, split at `", "`, is exactly the missing list in required order |
| `Schema.RenamedCityColumnReported` | app.py:19-21 | a complete header with `city_name` renamed to `city` reports exactly `["city_name"]` |
| `Text.Join` | app.py:21 | `", ".join`: empty for no parts; otherwise starts with the first part and is as long as all parts plus one separator between each pair of neighbours (its inverse is `Text.SplitJoin`) |
| `Text.SplitJoin` | app.py:21 | splitting `sep.join(parts)` at `sep` gives `parts` back, for a non-empty list of parts none of which contains the separator's first character |
| `Filtering.Selected` | app.py:35 | the mask of one row; no row passes an empty choice of cities or a window with `start > end` |
| `Filtering.FilterRows` | app.py:35 | the result is a subsequence of the input rows (order kept, never longer), every kept row has a chosen city and a timestamp in `[start, end]`, and no city chosen or `start > end` gives no rows |
| `Filtering.FilterCounts` | app.py:35 | each row value occurs in the result as often as in the input if it passes the mask, and not at all otherwise |
| `Filtering.FilterRowsIsFilter` | app.py:35 | the filter's result meets the independent description `IsFilterOf` |
| `Filtering.FilterUnique` | app.py:35 | any sequence meeting `IsFilterOf` equals the filter's result, so the description characterises it exactly |
| `Filtering.FilterKeepsAll` | app.py:35 | when every row passes the mask, the result is the whole table unchanged |
| `Filtering.FilterIdempotent` | app.py:35 | filtering the filtered table again with the same selection changes nothing |
| `Filtering.FilterConcat` | app.py:35 | the mask is row by row: filtering a concatenation gives the concatenation of the filtered parts |
| `Filtering.Cities` | app.py:28 | the `city_name` column: one entry per row, the row's city |
| `Filtering.UniqueAfter` | app.py:28 | the result holds each value of the input not yet seen, exactly once, is drawn from the input in order, and lists values in the order of their first occurrence in the input |
| `Filtering.Unique` | app.py:28 | `unique()`: the same values as the column, with no repeats, in the order of their first occurrence |
| `Filtering.EarliestTs` | app.py:30 | the minimum timestamp: no row is earlier, and some row has it |
| `Filtering.LatestTs` | app.py:31 | the maximum timestamp: no row is later, and some row has it |
| `Filtering.DefaultSelection` | app.py:28-32 | defaults exist exactly when the table has rows; the cities are the column's distinct values in first-appearance order (every city that occurs, each once); the window `[start, end]` holds every timestamp, and both `start` and `end` are timestamps of some row, so they are the minimum and the maximum, with `start <= end` |
| `Filtering.DefaultSelectsEverything` | app.py:28-35 | with the default selection the filter returns the whole table |
| `Charts.Charts` | app.py:42-62 | five charts, every column they read is a required column, and every colour grouping is by `city_name` |
| `Charts.ChartsReadPresentColumns` | app.py:19-62 | a header that passed the schema check has every column the charts read |
| `Pipeline.Run` | app.py:19-65 | a schema error happens exactly when a required name is absent, and its text is the missing-columns error; the catch-all error happens exactly for a valid header with no rows (an assumption about the widget library, see below); otherwise the result meets `IsFilterOf` for the selection used, which is the user's when the user chose one and the defaults when the widgets are untouched, in which case the result is the whole table; five charts are produced |
| `Pipeline.RenderedCitiesSelected` | app.py:35-42 | every row handed to the charts belongs to a selected city |
| `Pipeline.AustinDayOne` | app.py:35 | Austin and Boston rows over two days, with only Austin and only day 1 chosen, give Austin's day-1 row alone |

## Left out

- Reading the CSV with `pd.read_csv` (app.py:16): file I/O and a foreign parser. The table comes in already parsed, as a header and rows. The parser's renaming of duplicate header names is part of it.
- Timestamp conversion with `pd.to_datetime` (app.py:24) and its failures: timestamps are integers from the start. A value that does not parse, which the page reports through its catch-all handler, is not modelled.
- The widgets themselves: title, uploader, sidebar header, multiselect, slider, page header, subheaders and `st.plotly_chart` (app.py:6-8, 27-32, 38-63). Only the defaults they are given are modelled. The widgets confine a user's choice to the offered cities and to `[min, max]`; the model does not use that, and the filter is stated for any selection.
- The no-upload prompt (app.py:66-67): no logic.
- The catch-all handler (app.py:64-65): only one failure reaches it in the model, and its message text, which quotes the library's exception, is not modelled.
- Pipeline.Run: reporting a valid header with no rows as `ProcessingError` is an assumption about the widget library, not something app.py shows. With no rows, the min and max of the timestamp column are "not a time" values, and the model assumes the slider fails on them (app.py:29-32). The model also assumes the slider accepts `min == max`, a table whose rows all share one timestamp. Whether it does depends on the library version.
- Drawing the charts: `Charts` records each call's kind, columns, bar mode, label overrides and title. What the plotting library draws from them is not modelled.
- Measurement values and the library's handling of missing values (NaN/NaT): measurements are an opaque payload that the filter passes through.
- Filtering.DefaultSelectsEverything: it holds because model timestamps are whole numbers at the resolution the widget keeps. In app.py:30-32 the bounds pass through `to_pydatetime()`, which drops any nanosecond part. So a table whose latest timestamp has a sub-microsecond part gets a default `end` just before that row, and line 35 then leaves the row out. The model does not capture this truncation.
- The precipitation bar chart (app.py:62) passes no `barmode`, so the library's default applies. The wind chart (app.py:52) asks for grouped bars. The model follows the code and does not treat both as grouped.
