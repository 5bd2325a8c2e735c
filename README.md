# Well-intervention event browser: table logic

This project models the data logic of `app.py`, a small Flask page for browsing
a well-intervention operations log. The model covers four parts:

- **`load_data`**: it concatenates the frames read from the CSV files and parses
  the four date columns. It sorts the rows by `(well_legal_name, event_id,
  time_from)` and keeps the wanted columns. The result is stored in a
  process-wide cache. In the model this is the class `Loader.TableCache`. Its
  field `table: Option<Table>` is the cache. Its method `Load` has one loop
  that concatenates the frames and one loop that parses the date columns. The
  method is proved against the function `Loader.BuildTable`.
- **the well list** (`pozos`): the sorted, de-duplicated, non-null well names.
- **the event summary of a well**: the `groupby("event_id")` with the minimum
  `date_ops_start`, the maximum `date_ops_end` and the first
  `event_objective_1`. Each event is rendered as a selector label, and
  `fmt_fecha` formats the dates.
- **the detail table of one event**: the rows of the selected well and event,
  sorted by `time_from` and projected onto the display columns that are
  present.

Data model:

- A row is a map from column name to a nullable cell. A cell is text or a
  timestamp. `None` is pandas' NaN/NaT.
- A table is its column list plus its rows.
- A timestamp is a whole number of seconds since 1970-01-01. It is bounded to
  pandas' `datetime64[ns]` range.
- The day of a timestamp is `t / 86400`. Dafny's `/` is Euclidean, so for this
  positive divisor it equals floor division, which is what `Timestamp.date()`
  does.
- `pd.to_datetime(..., errors="coerce")` is a parameter
  `parse: string -> Option<Timestamp>`. `None` stands for a value that could
  not be parsed.

Modules:

- `Wrappers`: `Option` and `Result`.
- `Orders`: Python's string order and the insertion sort used for every
  `sort_values`/`sorted` call.
- `Calendar`: timestamps, calendar dates, the ISO rendering and `fmt_fecha`.
- `Tables`: rows, tables, concat, date parsing, sorting and projection.
- `Loader`: `load_data` and its cache.
- `Browser`: the logic of `index`.

The model follows what `app.py` does, including where a fuller design of the
browser would do more:

- Events are grouped by `event_id` alone, within one well (app.py:94-102). No
  composite key of well, objective, code and start day is formed.
- Events are listed in ascending `event_id` order, the order `groupby` gives
  its keys. They are not ordered by `date_ops_end`.
- The detail table is a filter on well and `event_id` (app.py:123). There is
  no re-scan of the source files.
- There is no chunked aggregation, no locator set and no synthetic entry id.

## Model

| member | source | states |
|---|---|---|
| `Loader.TableCache.constructor` | app.py:10-11 | the cache starts empty |
| `Loader.TableCache.Load` | app.py:14-70 | a cached table is returned unchanged and nothing is rebuilt; with no source file the result is `NoCsvFiles` and the cache stays unset; otherwise the result and the new cache are `BuildTable(sources)`, and every cached table is `Loaded` (well-formed, typed, sorted) |
| `Loader.BuildTableSpec` | app.py:33-67 | the built table is `Loaded`; its columns are exactly the wanted columns present in some source; its rows are the parsed source rows, each kept once and projected; there are as many rows as source rows |
| `Loader.BuiltSorted` | app.py:40-43 | the built rows are ordered by the present columns among `(well_legal_name, event_id, time_from)`, with nulls last |
| `Loader.BuiltTyped` | app.py:35-38 | every built row has exactly the kept columns; date columns hold timestamps or nulls, and the others hold text or nulls |
| `Tables.ConcatAllSpec` | app.py:33 | concatenating CSV frames gives a well-formed all-text table whose columns are the union of the frames' columns and whose row count is the sum of theirs; row `i` of frame `f` sits at position (rows of the frames before `f`) + `i`, holding the same cell in every column of that frame and null in every other column |
| `Tables.ParseDatesSpec` | app.py:36-38 | parsing converts exactly the listed date columns, cell by cell, and leaves every other cell and the column list unchanged |
| `Tables.ParseCell` | app.py:38 | a text cell becomes the timestamp `parse` reads from it, or null exactly when `parse` rejects it (not an error); a timestamp or null stays as it is |
| `Tables.RowOrderIsTotalPreorder` | app.py:41-43 | the multi-column order with nulls last is total and transitive, so it is a valid sort key |
| `Tables.PresentSpec` | app.py:66 | the kept columns are exactly the listed columns that are present, with no repeats, in the listed order |
| `Tables.ProjectSpec` | app.py:67 | projection keeps every row and, in each row, exactly the kept columns with their cells unchanged; every other column is dropped |
| `Tables.SortRestrict` | app.py:43-67 | sorting and then projecting keeps each projected row as often as it occurs before the sort |
| `Orders.SortSpec` | app.py:43 | the sort returns a permutation of its input, ordered by the key |
| `Orders.StrLeIsTotalPreorder` | app.py:81 | Python's string order, as modelled, is total and transitive |
| `Browser.WellListSpec` | app.py:81 | the well list is strictly ascending, so it has no duplicates, and holds exactly the well names that occur in non-null cells |
| `Browser.SortedUniqueSpec` | app.py:81 | `sorted(unique(xs))` is strictly ascending and holds exactly the values of `xs` |
| `Browser.RowsWithSpec` | app.py:91 | the well filter keeps each row whose cell equals the selected text, as often as it occurs, and drops every other row, including rows with a null cell |
| `Browser.AggregateSpec` | app.py:94-102 | the one-pass aggregate has a key for exactly the non-null `event_id`s; for each key it holds the minimum non-null start and the maximum non-null end of that event's rows (null when all are null) and the first non-null objective in table order |
| `Browser.SummarySpec` | app.py:94-102 | the summary has one entry per distinct non-null `event_id` of the well's rows, in strictly ascending order; each entry holds the minimum start, the maximum end and the first objective of that event's rows |
| `Calendar.CivilFromDays` | app.py:108 | the date of a day number is a valid calendar date whose day number is the input |
| `Calendar.StampYear` | app.py:36-38 | every pandas timestamp lies between the years 1677 and 2262, so its ISO year has four digits |
| `Calendar.IsoDate` | app.py:108 | `isoformat()` gives ten characters, "YYYY-MM-DD", with digits and dashes in their places |
| `Calendar.IsoDateRoundTrip` | app.py:108 | reading an ISO date string back gives the date that was formatted |
| `Calendar.FormatDate` | app.py:104-110 | a null date renders as "s/f"; any other date renders as ten characters, digits with dashes at positions 4 and 7, that read back as the calendar date of its day |
| `Calendar.FormatDateSameDay` | app.py:104-110 | two timestamps render alike exactly when they fall on the same day; a rendered date never equals "s/f" |
| `Browser.EventOptions` | app.py:112-119 | one selector option per summary entry, in order, carrying its `event_id` and its label |
| `Browser.LabelStartDay` | app.py:104-117 | changing only an entry's start date changes its label exactly when the new date is on another day or changes nullness |
| `Browser.EventRowsSpec` | app.py:123 | the event rows are exactly the table rows of the selected well and event, each as often as in the table |
| `Browser.DetailSpec` | app.py:122-148 | the detail table is well-formed; its columns are the display columns present, in display order; its rows are the projected event rows; they are ordered by `time_from` when that column exists |
| `Browser.DetailOfAbsentEvent` | app.py:122-125 | an event the selected well lacks gives an empty detail table, not an error |
| `Browser.ListedEventHasDetail` | app.py:94-125 | every event listed for a well has at least one detail row |
| `Browser.Browse` | app.py:75-150 | missing key columns give `MissingKeyColumns`; with a well selected, a missing aggregated column gives `MissingAggregateColumn`; otherwise the page holds the well list; with no well selected it has no events and no detail table; with a well selected it holds one option per summary entry and, only when an event is also selected, that event's detail table; the column list is the detail table's columns or all display columns |

## Left out

- Flask routing, `request.args`, `render_template`, the HTTP 500 response and
  `app.run` are web plumbing. `Browser.Browse` takes the two request arguments
  as `Option<string>`. It returns an error value where the page answers 500.
  An empty argument counts as no selection, following Python truthiness.
- CSV discovery and reading (`DATA_DIR.glob`, `pd.read_csv`, `print`) are file
  I/O. `Load` receives the frames that `read_csv(dtype=str)` would return. Each
  frame has distinct column names and only text or null cells. pandas' renaming
  of repeated headers is not modelled.
- The internals of `pd.to_datetime` are not modelled. They are the `parse`
  parameter, one function applied cell by cell to all four date columns.
  Called without `format`, pandas infers one format per column from the
  column's first non-null value, so a cell's result can depend on the other
  cells of its column. The model does not capture that dependence.
- Timestamps are kept in whole seconds. Sub-second parts of `time_from`, and
  the order they would give between rows within one second, are not modelled.
  Dates and labels depend only on the day.
- `Loader.TableCache.Load` concatenates frame by frame inside the reading loop.
  The source collects the frames and concatenates them once. `ConcatAll`
  defines both as the same table. Column order follows first appearance, as
  `pd.concat` does with its default `sort=False`.
- `Tables.RowOrderIsTotalPreorder`: the order between a text value and a
  timestamp is arbitrary. Python would raise an error instead. This case cannot
  arise in a loaded table, because each column holds only one kind of value.
- `Browser.DetailSpec`: ties on `time_from` are not promised any order.
  `sort_values` uses an unstable sort. The model's insertion sort fixes one tie
  order, and no contract depends on it. The same holds for ties in the
  three-column sort of `load_data`.
- The `str(x)` fallback of `fmt_fecha` is not modelled. It is unreachable:
  every non-null aggregated date is a timestamp, and `.date()` cannot fail on
  one.
- A null objective is rendered as the text "nan", which is what
  `str(float('nan'))` prints. Conversion with `to_dict(orient="records")` is
  not modelled separately: a detail row is already a map from column to cell.
- The cache is not made thread-safe, just as in the source.
