/**
 * `retrieve` (snow_sensors/retriever.py): both fetchers run on the same date,
 * their tables are stacked with `pd.concat(..., ignore_index=True)`, and the
 * result is saved when an output path is given. Writing a file is modelled by
 * the file that would be written: its path, its format and the table in it.
 */
module Retriever {
  import opened Wrappers
  import opened Frames
  import opened Python
  import opened Feeds
  import AltoAdige
  import Trentino

  /** What saving leaves behind. */
  datatype Written =
    | NothingWritten
    | CsvFile(path: string, table: Table)
    | JsonFile(path: string, table: Table)
    | GeoJsonFile(path: string, table: Table)

  /** How `retrieve` ends when it does not return a table. */
  datatype RetrieveError =
    /** A fetcher raised; the exception propagates unchanged. */
    | FetchFailed(cause: FetchError)
    /** The ValueError raised for a GeoJSON export of a table without coordinates. */
    | MissingCoordinates

  /** The two provider tables stacked: Alto Adige first, then Trentino, labelled 0 .. n-1. */
  function Aggregate(df1: Table, df2: Table): (r: Table)
    requires Valid(df1) && Valid(df2)
    ensures Valid(r) && ColumnSet(r.columns) == ColumnSet(df1.columns) + ColumnSet(df2.columns)
    ensures |r.entries| == |df1.entries| + |df2.entries|
    ensures forall i :: 0 <= i < |r.entries| ==> r.entries[i].index == Pos(i)
  {
    Concat(df1, df2)
  }

  /** Cell `c` of row `i` of the aggregate, where `c` is a column of the Alto Adige table. */
  lemma AggregateLeftCell(df1: Table, df2: Table, i: nat, c: string)
    requires Valid(df1) && Valid(df2) && i < |df1.entries| && c in df1.columns
    ensures c in Aggregate(df1, df2).entries[i].cells
    ensures Aggregate(df1, df2).entries[i].cells[c] == df1.entries[i].cells[c]
  {
    var r := Aggregate(df1, df2);
    assert c in ColumnSet(r.columns);
    assert r.entries[i].cells.Keys == ColumnSet(r.columns);
    ConcatRows(df1, df2, i, c);
  }

  /** Cell `c` of row `i` of the aggregate, past the Alto Adige rows, where `c` is a column of the Trentino table. */
  lemma AggregateRightCell(df1: Table, df2: Table, i: nat, c: string)
    requires Valid(df1) && Valid(df2) && |df1.entries| <= i < |df1.entries| + |df2.entries| && c in df2.columns
    ensures c in Aggregate(df1, df2).entries[i].cells
    ensures Aggregate(df1, df2).entries[i].cells[c] == df2.entries[i - |df1.entries|].cells[c]
  {
    var r := Aggregate(df1, df2);
    assert c in ColumnSet(r.columns);
    assert r.entries[i].cells.Keys == ColumnSet(r.columns);
    ConcatRows(df1, df2, i, c);
  }

  /**
   * The aggregate holds the rows of the Alto Adige table in their order,
   * followed by the rows of the Trentino table in theirs, each with its own
   * values.
   */
  lemma AggregateKeepsRows(df1: Table, df2: Table)
    requires Valid(df1) && Valid(df2)
    ensures forall i, c :: 0 <= i < |df1.entries| && c in df1.columns ==>
      c in Aggregate(df1, df2).entries[i].cells && Aggregate(df1, df2).entries[i].cells[c] == df1.entries[i].cells[c]
    ensures forall i, c :: |df1.entries| <= i < |df1.entries| + |df2.entries| && c in df2.columns ==>
      c in Aggregate(df1, df2).entries[i].cells &&
      Aggregate(df1, df2).entries[i].cells[c] == df2.entries[i - |df1.entries|].cells[c]
  {
    var r := Aggregate(df1, df2);
    forall i, c | 0 <= i < |df1.entries| && c in df1.columns
      ensures c in r.entries[i].cells && r.entries[i].cells[c] == df1.entries[i].cells[c]
    {
      AggregateLeftCell(df1, df2, i, c);
    }
    forall i, c | |df1.entries| <= i < |df1.entries| + |df2.entries| && c in df2.columns
      ensures c in r.entries[i].cells && r.entries[i].cells[c] == df2.entries[i - |df1.entries|].cells[c]
    {
      AggregateRightCell(df1, df2, i, c);
    }
  }

  /** A row of the aggregate lacks a value in every column its own provider table does not have. */
  lemma AggregatePadsMissingColumns(df1: Table, df2: Table, i: nat, c: string)
    requires Valid(df1) && Valid(df2) && c in Aggregate(df1, df2).columns
    requires i < |df1.entries| + |df2.entries|
    ensures i < |df1.entries| && c !in df1.columns ==> Aggregate(df1, df2).entries[i].cells[c] == Null
    ensures i >= |df1.entries| && c !in df2.columns ==> Aggregate(df1, df2).entries[i].cells[c] == Null
  {
    ConcatRows(df1, df2, i, c);
  }

  /**
   * The save step: no output path (None or the empty string) writes nothing;
   * `csv` and `json` write the table; `geojson` writes it when it has both
   * coordinate columns and fails before writing otherwise; any other format
   * writes nothing.
   */
  function Save(t: Table, output: Option<string>, format: string): (r: Result<Written, RetrieveError>)
    ensures (output.None? || output.value == "") ==> r == Ok(NothingWritten)
    ensures r.Err? <==>
      (output.Some? && output.value != "" && format == "geojson" &&
       !("latitude" in t.columns && "longitude" in t.columns))
    ensures r.Err? ==> r.error == MissingCoordinates
    ensures r.Ok? && !r.value.NothingWritten? ==> output.Some? && r.value.path == output.value && r.value.table == t
    ensures r.Ok? && r.value.CsvFile? <==> output.Some? && output.value != "" && format == "csv"
    ensures r.Ok? && r.value.JsonFile? <==> output.Some? && output.value != "" && format == "json"
    ensures r.Ok? && r.value.GeoJsonFile? <==>
      (output.Some? && output.value != "" && format == "geojson" &&
       "latitude" in t.columns && "longitude" in t.columns)
  {
    match output
    case None => Ok(NothingWritten)
    case Some(path) =>
      if path == "" then Ok(NothingWritten)
      else if format == "csv" then Ok(CsvFile(path, t))
      else if format == "json" then Ok(JsonFile(path, t))
      else if format == "geojson" then
        if "latitude" in t.columns && "longitude" in t.columns then Ok(GeoJsonFile(path, t))
        else Err(MissingCoordinates)
      else Ok(NothingWritten)
  }

  /**
   * `retrieve(date, output, format, ...)` with the four HTTP outcomes as
   * inputs: the Alto Adige fetch runs first and its failure ends the run; then
   * the Trentino fetch; the two tables are stacked and saved.
   */
  function Retrieve(
    date: string, output: Option<string>, format: string,
    sensors: Response, stations: Response, readings: Response, registry: Response, fx: Foreign
  ): (r: Result<(Table, Written), RetrieveError>)
    requires sensors.Parsed? ==> Valid(sensors.table)
    requires stations.Parsed? ==> Valid(stations.table)
    requires readings.Parsed? ==> Valid(readings.table) && RenameIsInjective(readings.table.columns, Trentino.ReadingNames)
    requires registry.Parsed? ==> Valid(registry.table) && RenameIsInjective(registry.table.columns, Trentino.StationNames)
    ensures var f1 := AltoAdige.Fetch(date, sensors, stations, fx);
      var f2 := Trentino.Fetch(date, readings, registry, fx);
      && (f1.Err? ==> r == Err(FetchFailed(f1.error)))
      && (f1.Ok? && f2.Err? ==> r == Err(FetchFailed(f2.error)))
      && (r.Ok? ==> f1.Ok? && f2.Ok? && r.value.0 == Aggregate(f1.value, f2.value))
    ensures r.Ok? ==> Save(r.value.0, output, format) == Ok(r.value.1)
    ensures r.Err? ==> r.error.FetchFailed?
  {
    match AltoAdige.Fetch(date, sensors, stations, fx)
    case Err(e1) => Err(FetchFailed(e1))
    case Ok(df1) =>
      match Trentino.Fetch(date, readings, registry, fx)
      case Err(e2) => Err(FetchFailed(e2))
      case Ok(df2) => Ok(Assemble(df1, df2, output, format))
  }

  /** Stacking two fetched tables and saving the result cannot fail: both carry coordinates. */
  function Assemble(df1: Table, df2: Table, output: Option<string>, format: string): (r: (Table, Written))
    requires Valid(df1) && Valid(df2)
    requires df1.columns == AltoAdige.OutputColumns && df2.columns == Trentino.OutputColumns
    ensures r.0 == Aggregate(df1, df2) && Save(r.0, output, format) == Ok(r.1)
  {
    var df := Aggregate(df1, df2);
    HasCoordinates(df1, df2);
    (df, Save(df, output, format).value)
  }

  /** Both providers' tables carry coordinate columns, and so does their aggregate. */
  lemma HasCoordinates(df1: Table, df2: Table)
    requires Valid(df1) && Valid(df2)
    requires df1.columns == AltoAdige.OutputColumns && df2.columns == Trentino.OutputColumns
    ensures "latitude" in Aggregate(df1, df2).columns && "longitude" in Aggregate(df1, df2).columns
  {
    var cols := Aggregate(df1, df2).columns;
    assert df1.columns[6] == "latitude" && df1.columns[5] == "longitude";
    assert "latitude" in ColumnSet(df1.columns) && "longitude" in ColumnSet(df1.columns);
    assert "latitude" in ColumnSet(cols) && "longitude" in ColumnSet(cols);
  }
}
