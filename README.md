# snow-depth-sensors, modelled in Dafny

The Python package `snow_sensors` collects daily snow-depth readings from two
regional weather services.

- **Alto Adige / South Tyrol.** A CSV feed of sensor readings keyed by `SCODE`,
  plus a CSV station list.
- **Trentino.** A semicolon-separated CSV of the day's snow surveys keyed by
  `codice_campo`, plus an XML registry of survey fields keyed by `codice`.

Each fetcher renames columns and parses dates leniently. It then joins the
readings with their stations on the station code and returns a table with
depth, names and coordinates. `retrieve` stacks the two tables and can save
the result as CSV, JSON or GeoJSON. `SupabaseUploader` turns the rows of such
a table into upsert records for the `snow_sensors` table of a Supabase
project. `example.py` summarises a table: its record count, distinct sensors,
date range and depth range, and how many depths are positive, zero or
negative.

## Modules

| file | module | models |
|---|---|---|
| `wrappers.dfy` | `Wrappers` | `Option` and `Result`: a value, or the exception raised instead |
| `frames.dfy` | `Frames` | DataFrames as ordered columns plus labelled rows, and the pandas operations the pipelines use |
| `text.dfy` | `Text` | `str.split`, `str.join` and `str(n)` |
| `python.dfy` | `Python` | truthiness, `a or b or c` chains, `str()` and `float()` of a cell; conversions the model cannot see come in as a `Foreign` parameter |
| `feeds.dfy` | `Feeds` | requests and their outcomes, error kinds, `parse_date_safe` |
| `altoadige.dfy` | `AltoAdige` | `AltoAdigeDataFetcher.fetch_snow_depth_data` |
| `trentino.dfy` | `Trentino` | `TrentinoDataFetcher.fetch_snow_depth_data` |
| `retriever.dfy` | `Retriever` | `retrieve`: concatenation and the save step |
| `uploader.dfy` | `Uploader` | `SupabaseUploader` (a class with `url`, `key` and `headers`) and `upload_to_supabase` |
| `summary.dfy` | `Summary` | `get_data_summary` and the sign buckets in `main` |

### How the model represents the outside world

- **HTTP and parsing.** An HTTP GET together with the parsing of its body is an
  input of type `Response`:
  - the parsed table;
  - a transport failure (a connection error, a timeout or an error status);
  - a pandas `ParserError` from the reader;
  - any other error of the reader (an empty body, a missing index column,
    an XML syntax error).
- **Saving and uploading.** Writing a file is modelled as the file that would
  be written. An upload is modelled as the POST that would be sent, plus its
  outcome, which is an input.
- **The environment.** The process environment is a `map` parameter.

### Behaviours of the code the model keeps

- An error of `read_xml` on the Trentino registry propagates unwrapped,
  unless it is a pandas `ParserError`.
- Trentino's result keeps rows with missing values: there is no `dropna`.
- `df.empty` is also true for a table with rows but no columns.

## Model

| member | source | states |
|---|---|---|
| Feeds.Feed | snow_sensors/altoadige_data_fetcher.py:97-102 | a parsed feed passes through unchanged; a transport failure becomes `RequestFailed` with the "Failed to fetch data from API: " prefix; a pandas `ParserError` from either reader becomes `CsvParseFailed` with the "Failed to parse CSV data: " prefix; any other reader error (an empty body, a missing index column, an XML syntax error) passes through unwrapped, because no except clause matches it |
| Feeds.ParseDateSafe | snow_sensors/altoadige_data_fetcher.py:77-85 | result is a timestamp iff the cell is a string the parser accepts; the timestamp has no timezone and keeps the wall-clock fields; everything else becomes NaT |
| Frames.Apply | snow_sensors/altoadige_data_fetcher.py:87 | `Series.apply` replaces each row's cell in that column by `f` of it and changes nothing else; columns, row count and labels are kept |
| Feeds.ParseDates | snow_sensors/altoadige_data_fetcher.py:87 | only the `date` cell of each row changes (to `parse_date_safe` of it); columns, row count and labels are kept |
| Frames.Select | snow_sensors/altoadige_data_fetcher.py:72 | `df[cols]` has exactly those columns in that order; every row keeps its label and its cells in those columns |
| Frames.Rename | snow_sensors/altoadige_data_fetcher.py:73 | every column keeps its position and its cells under its new label; labels and row count unchanged |
| Frames.SetIndex | snow_sensors/trentino_data_fetcher.py:80 | each row is labelled by its cell in the key column, and that column is removed |
| Frames.Assign | snow_sensors/trentino_data_fetcher.py:84-85 | `df[t] = df[s]` overwrites `t` in place or appends it as the last column; every row's `t` cell becomes its `s` cell |
| Frames.Shared | snow_sensors/trentino_data_fetcher.py:87 | lists exactly the column labels both sides of a join have; it is empty iff the join is allowed |
| Frames.Join | snow_sensors/altoadige_data_fetcher.py:96 | inner join: a row is in the result iff it merges a left row and a right row with equal labels; the columns are the left ones followed by the right ones |
| Frames.ResetIndex | snow_sensors/trentino_data_fetcher.py:87 | the same rows in the same order, labelled 0 .. n-1 |
| Frames.DropNa | snow_sensors/altoadige_data_fetcher.py:96 | a row is kept iff it has no missing value; there are never more rows than before |
| Frames.ResetThenDropNaRows | snow_sensors/altoadige_data_fetcher.py:96 | `reset_index(drop=True).dropna()` keeps exactly the input rows that have no missing value |
| Frames.ResetThenDropNaAscending | snow_sensors/altoadige_data_fetcher.py:96 | after `reset_index(drop=True).dropna()` the labels are positions in strictly increasing order, with gaps where rows were dropped |
| Frames.Concat | snow_sensors/retriever.py:23 | `concat(ignore_index=True)` has the union of the columns, the row counts added, and labels 0 .. n-1 |
| Frames.ConcatRows | snow_sensors/retriever.py:23 | each row of the concatenation carries its source row's cells, and a missing value in every column its own table lacked |
| Text.Split | snow_sensors/trentino_data_fetcher.py:41-43 | `str.split` always yields at least one piece |
| Text.SplitCount | snow_sensors/trentino_data_fetcher.py:41-43 | a split has one more piece than the string has separators, so index 2 exists iff there are at least two dashes |
| Text.SplitPiecesLackSeparator | snow_sensors/trentino_data_fetcher.py:41-43 | no piece contains the separator |
| Text.JoinSplit | snow_sensors/trentino_data_fetcher.py:41-43 | joining the pieces of a split gives back the string |
| Text.SplitJoin | snow_sensors/trentino_data_fetcher.py:41-43 | splitting a join of separator-free pieces gives back the pieces |
| Text.NatToString | snow_sensors/supabase_uploader.py:67 | the rendering of a position label is a non-empty string of decimal digits |
| Text.DecimalRoundTrip | snow_sensors/supabase_uploader.py:67 | the digits rendered for `n` read back as `n` |
| Text.NatToStringInjective | snow_sensors/supabase_uploader.py:70 | different positions render differently |
| Python.Truthy | snow_sensors/supabase_uploader.py:62-70 | a value is falsy iff it is absent (`row.get` gives None), the number zero or the empty string; a missing value (NaN/NaT) is truthy |
| Python.Str | snow_sensors/supabase_uploader.py:73-74 | `str()` of a missing value is "nan" and of a string is the string itself |
| Python.ToFloat | snow_sensors/supabase_uploader.py:75-77 | `float()` keeps a number, fails on a timestamp, and on a string fails exactly when the string is not a float literal |
| Python.FirstTruthy | snow_sensors/supabase_uploader.py:62-67 | an `or` chain gives some value iff one of them is truthy, and then gives the first truthy one |
| AltoAdige.RequestsIgnoreDate | snow_sensors/altoadige_data_fetcher.py:57-68 | both GETs are the same for every date, and no query parameter carries the date |
| AltoAdige.Readings | snow_sensors/altoadige_data_fetcher.py:71-87 | KeyError iff DATE or VALUE is missing; otherwise columns `date`, `hs`, one row per reading with the reading's label, its date parsed and its value as `hs` |
| AltoAdige.Stations | snow_sensors/altoadige_data_fetcher.py:92-94 | KeyError iff one of the five station columns is missing; otherwise the five renamed columns, one row per station with its label |
| AltoAdige.Fetch | snow_sensors/altoadige_data_fetcher.py:43-102 | the readings feed fails first; a station failure counts only once the readings have passed; `RequestException` and `ParserError` are re-raised with their message prefixes, other reader errors unwrapped; a result has the seven output columns, no missing value in any row, and increasing position labels |
| AltoAdige.FetchSucceeds | snow_sensors/altoadige_data_fetcher.py:71-96 | with both feeds parsed and their columns present, the fetch cannot fail |
| AltoAdige.FetchRowsSound | snow_sensors/altoadige_data_fetcher.py:96 | every output row combines a reading and a station with the same code |
| AltoAdige.FetchRowsComplete | snow_sensors/altoadige_data_fetcher.py:96 | every reading–station pair with equal codes and no missing value has its row in the output |
| AltoAdige.FetchPairsReadingsWithStations | snow_sensors/altoadige_data_fetcher.py:96 | the output is exactly the inner join on the station code, minus rows with a missing value |
| Trentino.DateParams | snow_sensors/trentino_data_fetcher.py:40-44 | IndexError iff the date has fewer than two dashes; otherwise `anno`, `mese` and `giorno`, none containing a dash |
| Trentino.DateParamsOfIsoDate | snow_sensors/trentino_data_fetcher.py:40-44 | `Y-M-D` becomes `anno=Y`, `mese=M`, `giorno=D` |
| Trentino.Requests | snow_sensors/trentino_data_fetcher.py:37-45 | the readings GET carries the date parameters; the registry GET has none; a bad date sends nothing |
| Trentino.Readings | snow_sensors/trentino_data_fetcher.py:50-66 | every column keeps its cells under its new label (HS→hs, HN→hn, DataRilievo→date), and only `date` is converted |
| Trentino.RenamedAndDated | snow_sensors/trentino_data_fetcher.py:52-66 | the renaming followed by the date conversion changes the `date` column and no other |
| Trentino.Stations | snow_sensors/trentino_data_fetcher.py:73-85 | KeyError without `codice` or without a name column; otherwise rows keyed by `codice`, other cells kept under their new labels, and `name_en` and `name_de` equal to `name_it` |
| Trentino.KeyedRenamedCopied | snow_sensors/trentino_data_fetcher.py:80-85 | the keying, renaming and name copies give each station its code label, its own cells and three equal names |
| Trentino.NamesCopied | snow_sensors/trentino_data_fetcher.py:84-88 | rows whose station names agree keep agreeing through the join, the re-indexing and the projection |
| Trentino.Projection | snow_sensors/trentino_data_fetcher.py:87-88 | the projected join has the eight output columns, one row per joined pair, and labels 0 .. n-1 |
| Trentino.Combine | snow_sensors/trentino_data_fetcher.py:87-88 | ValueError iff the two sides share a column; KeyError iff an output column is on neither side; otherwise the eight columns, position labels, and equal names |
| Trentino.Fetch | snow_sensors/trentino_data_fetcher.py:21-94 | a bad date fails before any request; the readings feed fails before the registry; `RequestException` and `ParserError` (from either reader) are re-raised with their prefixes, other reader errors unwrapped; a result has the eight columns, position labels, and `name_en` = `name_de` = `name_it` |
| Trentino.CombinedPairs | snow_sensors/trentino_data_fetcher.py:87-88 | the combined table is exactly the rows of readings paired with the station of the same code |
| Trentino.FetchPairsReadingsWithStations | snow_sensors/trentino_data_fetcher.py:87-88 | with the usual feed columns, every output row is a reading paired with its station, and every such pair appears; nothing is dropped for missing values |
| Retriever.Aggregate | snow_sensors/retriever.py:23 | the stacked table has both tables' columns, both tables' rows, and labels 0 .. n-1 |
| Retriever.AggregateKeepsRows | snow_sensors/retriever.py:23 | the Alto Adige rows come first and keep their values; the Trentino rows follow with theirs |
| Retriever.AggregatePadsMissingColumns | snow_sensors/retriever.py:23 | a row has a missing value in every column its own provider lacks (only the Alto Adige rows lack one, `hn`; the Trentino rows have every column of the union) |
| Retriever.Save | snow_sensors/retriever.py:37-55 | no path writes nothing; csv/json/geojson write the table to the path; geojson fails iff a coordinate column is missing; any other format writes nothing |
| Retriever.HasCoordinates | snow_sensors/retriever.py:46-55 | the stacked table always has `latitude` and `longitude`, so the GeoJSON error cannot arise here |
| Retriever.Assemble | snow_sensors/retriever.py:23-59 | stacking and saving two fetched tables cannot fail |
| Retriever.Retrieve | snow_sensors/retriever.py:9-62 | an Alto Adige failure ends the run; then a Trentino failure does; otherwise the result is the stacked table and the file `Save` writes; every error is a fetch error |
| Uploader.Chosen | snow_sensors/supabase_uploader.py:22-23 | a non-empty argument wins; an empty or absent one defers to the environment variable |
| Uploader.Credentials | snow_sensors/supabase_uploader.py:22-29 | ValueError iff no non-empty URL or no non-empty key is found; otherwise both are non-empty and each comes from its argument or its variable |
| Uploader.Headers | snow_sensors/supabase_uploader.py:31-36 | exactly four headers: the key as `apikey`, `Bearer <key>`, JSON content, upsert preference |
| Uploader.BearerTokenIsKey | snow_sensors/supabase_uploader.py:31-33 | the token after "Bearer " in the Authorization header is the API key |
| Uploader.SupabaseUploader.constructor | snow_sensors/supabase_uploader.py:14-36 | the fields hold the URL, the key and the headers built from that key |
| Uploader.SupabaseUploader.Create | snow_sensors/supabase_uploader.py:14-36 | construction fails with ValueError exactly when `Credentials` does; otherwise it gives a fresh valid uploader with the chosen URL and key |
| Uploader.StationName | snow_sensors/supabase_uploader.py:62-67 | the first truthy of `name_it`, `name_de`, `name_en` (a missing value counts as truthy and prints "nan"), else `Station_<label>` |
| Uploader.StationCode | snow_sensors/supabase_uploader.py:70 | the first truthy of `station_code`, `SCODE`, else `<source>_<label>` |
| Uploader.GeneratedCodesDiffer | snow_sensors/supabase_uploader.py:70 | generated codes for different positions differ |
| Uploader.PositionalCodes | snow_sensors/supabase_uploader.py:70 | on a table with no code column whose labels are increasing positions (what both fetchers and `retrieve` return, gaps after `dropna` included) each row's code is `<source>_<label>`, and no two rows share one |
| Uploader.Essential | snow_sensors/supabase_uploader.py:57-59 | a row is uploaded only if it has `hs`, `latitude` and `longitude` columns and none of the three values is missing |
| Uploader.OptionalNumber | snow_sensors/supabase_uploader.py:83-87 | `hn` is present iff the column exists, the value is not missing and `float()` accepts it |
| Uploader.Elevation | snow_sensors/supabase_uploader.py:89-98 | a present `elevation` decides, even when its conversion fails; only an absent or missing `elevation` falls back to `ALT` |
| Uploader.RecordFor | snow_sensors/supabase_uploader.py:57-98 | a row without a depth or a coordinate is skipped; otherwise the record succeeds iff latitude, longitude and depth convert; on success it carries the source, the date, the chosen name and code, and the optional fields |
| Uploader.Kept | snow_sensors/supabase_uploader.py:57-59 | the rows kept are exactly the rows with a depth and both coordinates, and there are no more of them than rows |
| Uploader.RecordsOf | snow_sensors/supabase_uploader.py:55-100 | the loop's result as a function of the rows: no more records than rows; a failure is always a `float()` error on `latitude`, `longitude` or `hs` |
| Uploader.ErrorPersists | snow_sensors/supabase_uploader.py:55-100 | once a row raises, later rows change nothing |
| Uploader.RecordsFollowRows | snow_sensors/supabase_uploader.py:55-100 | record k is the record of the k-th kept row, and there is one record per kept row |
| Uploader.RecordsAreTagged | snow_sensors/supabase_uploader.py:72-80 | no more records than rows; each carries the given source and date and comes from a row with a depth and both coordinates |
| Uploader.RecordsFailAtFirstBadRow | snow_sensors/supabase_uploader.py:72-77 | building fails iff some row's conversion fails, and then with the error of the first such row |
| Uploader.CollectRecords | snow_sensors/supabase_uploader.py:54-100 | the loop over the rows yields exactly `RecordsOf` of them |
| Uploader.Empty | snow_sensors/supabase_uploader.py:50 | `df.empty` holds iff the table has no cells: no rows or no columns |
| Uploader.SupabaseUploader.Upload | snow_sensors/supabase_uploader.py:38-132 | an empty table, or no valid record, gives uploaded 0 and no POST; a conversion error propagates with no POST; otherwise one POST of all records to `<url>/rest/v1/snow_sensors` with the headers; success reports the record count and the date; a failed POST re-raises |
| Uploader.UploadToSupabase | snow_sensors/supabase_uploader.py:135-148 | with the credentials from the environment only: ValueError without them; otherwise the POST goes to the environment URL with that key's headers and carries the records |
| Summary.NUnique | example.py:115-117 | `nunique()` is at most the number of values, and positive iff some value is not missing |
| Summary.SensorCount | example.py:112-118 | the sensor count is at most two per row, and positive iff some row has an `SCODE` or `codStaz` value in a column the table has |
| Summary.RetrievedTableCountsNoSensors | example.py:112-119 | the table `retrieve` returns has neither code column, so its summary never includes `unique_sensors` |
| Summary.Stamps | example.py:121-125 | the non-missing dates of the column, each of which comes from the column |
| Summary.Earliest | example.py:123 | `min()` is one of the dates and is not after any of them |
| Summary.Latest | example.py:124 | `max()` is one of the dates and is not before any of them |
| Summary.Coerce | example.py:129 | `to_numeric(errors='coerce')` keeps a number, turns a string into the number `to_numeric` reads from it or NaN, and anything else into NaN |
| Summary.Numbers | example.py:129-130 | `to_numeric(errors='coerce').dropna()` holds exactly the values that coerce |
| Summary.Least | example.py:134 | `min()` is one of the values and is no greater than any |
| Summary.Greatest | example.py:135 | `max()` is one of the values and is no less than any |
| Summary.DateRangeOf | example.py:121-125 | `isna().all()` holds iff no date is known; when one is, start ≤ end, both occur in the column, and they bound every date |
| Summary.ValueStatsOf | example.py:127-138 | some depth coerces iff there are stats; min ≤ max, both occur, and they bound every numeric depth |
| Summary.GetDataSummary | example.py:95-140 | `total_records` = row count; `unique_sensors` present iff the table has rows and the count is positive; `date_range` present iff a `date` column has a known date, and then bounds the dates; `value_stats` present iff some `hs` coerces, and then bounds the depths |
| Summary.CountWhere | example.py:74-76 | a bucket never has more values than the column |
| Summary.SignBuckets | example.py:73-76 | skipped iff there is no `hs` column; TypeError iff some known depth is not a number |
| Summary.SignsPartition | example.py:74-76 | over numbers and missing values, the positive, zero and negative counts add up to the count of known values |
| Summary.BucketsCoverKnownDepths | example.py:73-76 | the three printed counts add up to the number of non-missing depths |

## Left out

- HTTP sessions, timeouts and `raise_for_status` are modelled only by their outcome, the `Response` input. The same goes for the Supabase POST and its outcome.
- `pd.read_csv` and `pd.read_xml` are left out: a parsed feed arrives as a table, with the `index_col` column already as the row labels.
- dateutil's parser, `float()` of a string, `pd.to_numeric` of a string, and `str()` of a number or timestamp are `Foreign` parameters. Their internals are not modelled.
- `os.environ` is a parameter.
- File writing (`to_csv`, `to_json`, GeoPandas `to_file`) is modelled by the file that would be written. Logging, `print` output, and the display code of `main` in example.py are left out.
- Mean and standard deviation in `get_data_summary` (floating-point arithmetic) are left out. Depths are exact reals.
- The `except json.JSONDecodeError` branches of both fetchers are left out. Nothing inside their `try` blocks decodes JSON, so they cannot be reached.
- Trentino.Fetch requires that renaming the readings and station columns does not create duplicate labels. pandas would keep duplicate labels; this model does not represent them.
- GetDataSummary requires every known date to be a timestamp, which `parse_date_safe` guarantees for fetched tables. `min`/`max` over string or mixed-type date columns is not modelled.
- Summary.Coerce treats a timestamp depth as not numeric. The fetchers never put timestamps in `hs`.
- `float()` of a boolean or of other Python objects is not modelled. Cells are numbers, strings, timestamps or missing values.
- The CLI (snow_sensors/cli.py), setup.py and the fetchers' `__init__` methods (which only create a `requests.Session`) are not part of this model.
- The parser of `pd.to_numeric` is a `Foreign` parameter separate from `float()`'s, since the two read some strings differently; its grammar is not modelled.
