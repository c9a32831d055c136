/**
 * The South Tyrol fetcher (`AltoAdigeDataFetcher.fetch_snow_depth_data`) from
 * the point where both CSV bodies have been parsed: readings keyed by station
 * code reduced to `date` and `hs`, dates converted leniently, stations keyed
 * by station code reduced to their names and coordinates, an inner join on
 * the code, a fresh position index and a final drop of every row with a
 * missing value.
 */
module AltoAdige {
  import opened Wrappers
  import opened Frames
  import opened Python
  import opened Feeds

  const SensorsUrl := "http://daten.buergernetz.bz.it/services/meteo/v1/sensors"
  const StationsUrl := "http://dati.retecivica.bz.it/services/meteo/v1/stations"

  const ReadingColumns: seq<string> := ["DATE", "VALUE"]
  const ReadingNames: map<string, string> := map["VALUE" := "hs", "DATE" := "date"]
  const StationColumns: seq<string> := ["NAME_D", "NAME_I", "NAME_E", "LONG", "LAT"]
  const StationNames: map<string, string> := map[
    "NAME_D" := "name_de", "NAME_I" := "name_it", "NAME_E" := "name_en",
    "LONG" := "longitude", "LAT" := "latitude"]
  const OutputColumns: seq<string> := ["date", "hs", "name_de", "name_it", "name_en", "longitude", "latitude"]

  /** The two GETs of a fetch, in the order they are sent. */
  function Requests(date: string): seq<Request> {
    [ Request(SensorsUrl, map["output_format" := "CSV", "sensor_code" := "HS"]),
      Request(StationsUrl, map["output_format" := "CSV", "coord_sys" := "EPSG:4326"]) ]
  }

  /** The requested date never reaches the requests: every date asks for the same data. */
  lemma RequestsIgnoreDate(d1: string, d2: string)
    ensures Requests(d1) == Requests(d2)
    ensures forall r :: r in Requests(d1) ==> r.params.Keys !! {"date", "anno", "mese", "giorno"}
  {
  }

  /** What one reading contributes to an output row. */
  function ReadingCells(a: Entry, fx: Foreign): map<string, Cell> {
    map["date" := ParseDateSafe(At(a, "DATE"), fx), "hs" := At(a, "VALUE")]
  }

  /** What one station contributes to an output row. */
  function StationCells(b: Entry): map<string, Cell> {
    map["name_de" := At(b, "NAME_D"), "name_it" := At(b, "NAME_I"), "name_en" := At(b, "NAME_E"),
        "longitude" := At(b, "LONG"), "latitude" := At(b, "LAT")]
  }

  lemma ReadingRenameFacts()
    ensures Distinct(ReadingColumns) && RenameIsInjective(ReadingColumns, ReadingNames)
    ensures Renamed(ReadingNames, "DATE") == "date" && Renamed(ReadingNames, "VALUE") == "hs"
    ensures RenameColumns(ReadingColumns, ReadingNames) == ["date", "hs"]
  {
  }

  /** The three name columns differ in their last letters only. */
  lemma NameColumnsDiffer()
    ensures "NAME_D" != "NAME_I" && "NAME_D" != "NAME_E" && "NAME_I" != "NAME_E"
    ensures "name_de" != "name_it" && "name_de" != "name_en" && "name_it" != "name_en"
  {
    assert "NAME_D"[5] != "NAME_I"[5] && "NAME_D"[5] != "NAME_E"[5] && "NAME_I"[5] != "NAME_E"[5];
    assert "name_de"[5] != "name_it"[5] && "name_de"[5] != "name_en"[5] && "name_it"[5] != "name_en"[5];
  }

  lemma StationLookups()
    ensures Renamed(StationNames, "NAME_D") == "name_de" && Renamed(StationNames, "NAME_I") == "name_it"
    ensures Renamed(StationNames, "NAME_E") == "name_en"
    ensures Renamed(StationNames, "LONG") == "longitude" && Renamed(StationNames, "LAT") == "latitude"
  {
    NameColumnsDiffer();
  }

  lemma StationRenameFacts()
    ensures Distinct(StationColumns) && RenameIsInjective(StationColumns, StationNames)
    ensures RenameColumns(StationColumns, StationNames) == ["name_de", "name_it", "name_en", "longitude", "latitude"]
  {
    StationColumnsDistinct();
    StationsRenamedOneToOne();
    StationColumnsRenamed();
  }

  lemma StationColumnsDistinct()
    ensures Distinct(StationColumns)
  {
    NameColumnsDiffer();
  }

  lemma StationColumnsRenamed()
    ensures RenameColumns(StationColumns, StationNames) == ["name_de", "name_it", "name_en", "longitude", "latitude"]
  {
    StationLookups();
    var r := RenameColumns(StationColumns, StationNames);
    assert r[0] == "name_de" && r[1] == "name_it" && r[2] == "name_en" && r[3] == "longitude" && r[4] == "latitude";
  }

  lemma StationsRenamedOneToOne()
    ensures RenameIsInjective(StationColumns, StationNames)
  {
    NameColumnsDiffer();
    StationLookups();
    forall a, b | a in StationColumns && b in StationColumns && a != b
      ensures Renamed(StationNames, a) != Renamed(StationNames, b)
    {
    }
  }

  /** One reading after the selection, the renaming and the date conversion. */
  lemma ReadingRow(a: Entry, n: Entry, fx: Foreign)
    requires n.cells.Keys == ColumnSet(["date", "hs"])
    requires n.cells["date"] == At(a, "DATE") && n.cells["hs"] == At(a, "VALUE")
    ensures n.cells["date" := ParseDateSafe(n.cells["date"], fx)] == ReadingCells(a, fx)
  {
  }

  /** Row `i` of the selected and renamed readings, before the date conversion. */
  lemma RenamedReadingAt(t: Table, fx: Foreign, i: int)
    requires Valid(t) && "DATE" in t.columns && "VALUE" in t.columns
    requires Distinct(ReadingColumns) && RenameIsInjective(ReadingColumns, ReadingNames)
    requires 0 <= i < |t.entries|
    ensures Rename(Select(t, ReadingColumns), ReadingNames).entries[i].index == t.entries[i].index
    ensures var n := Rename(Select(t, ReadingColumns), ReadingNames).entries[i];
      n.cells["date" := ParseDateSafe(n.cells["date"], fx)] == ReadingCells(t.entries[i], fx)
  {
    ReadingRenameFacts();
    var selected := Select(t, ReadingColumns);
    var n := Rename(selected, ReadingNames).entries[i];
    assert "DATE" in ReadingColumns && "VALUE" in ReadingColumns;
    assert n.cells["date"] == selected.entries[i].cells["DATE"];
    assert n.cells["hs"] == selected.entries[i].cells["VALUE"];
    ReadingRow(t.entries[i], n, fx);
  }

  /** The selected and renamed readings, before the date conversion. */
  lemma RenamedReadings(t: Table, fx: Foreign)
    requires Valid(t) && "DATE" in t.columns && "VALUE" in t.columns
    requires Distinct(ReadingColumns) && RenameIsInjective(ReadingColumns, ReadingNames)
    ensures forall i :: 0 <= i < |t.entries| ==>
      var n := Rename(Select(t, ReadingColumns), ReadingNames).entries[i];
      n.index == t.entries[i].index && n.cells["date" := ParseDateSafe(n.cells["date"], fx)] == ReadingCells(t.entries[i], fx)
  {
    forall i | 0 <= i < |t.entries|
      ensures var n := Rename(Select(t, ReadingColumns), ReadingNames).entries[i];
        n.index == t.entries[i].index && n.cells["date" := ParseDateSafe(n.cells["date"], fx)] == ReadingCells(t.entries[i], fx)
    {
      RenamedReadingAt(t, fx, i);
    }
  }

  /** Cell `c` of row `i` of the selected stations, under its new label. */
  lemma RenamedStationCell(t: Table, i: int, c: string)
    requires Valid(t) && forall c :: c in StationColumns ==> c in t.columns
    requires Distinct(StationColumns) && RenameIsInjective(StationColumns, StationNames)
    requires 0 <= i < |t.entries| && c in StationColumns
    ensures Rename(Select(t, StationColumns), StationNames).entries[i].cells[Renamed(StationNames, c)] == At(t.entries[i], c)
  {
    assert t.entries[i].cells.Keys == ColumnSet(t.columns);
  }

  /** Row `i` of the selected and renamed stations. */
  lemma RenamedStationAt(t: Table, i: int)
    requires Valid(t) && forall c :: c in StationColumns ==> c in t.columns
    requires Distinct(StationColumns) && RenameIsInjective(StationColumns, StationNames)
    requires 0 <= i < |t.entries|
    ensures Rename(Select(t, StationColumns), StationNames).entries[i] == Entry(t.entries[i].index, StationCells(t.entries[i]))
  {
    StationRenameFacts();
    StationLookups();
    var n := Rename(Select(t, StationColumns), StationNames).entries[i];
    RenamedStationCell(t, i, "NAME_D");
    RenamedStationCell(t, i, "NAME_I");
    RenamedStationCell(t, i, "NAME_E");
    RenamedStationCell(t, i, "LONG");
    RenamedStationCell(t, i, "LAT");
    StationRow(t.entries[i], n);
  }

  /** The selected and renamed stations. */
  lemma RenamedStations(t: Table)
    requires Valid(t) && forall c :: c in StationColumns ==> c in t.columns
    requires Distinct(StationColumns) && RenameIsInjective(StationColumns, StationNames)
    ensures forall i :: 0 <= i < |t.entries| ==>
      Rename(Select(t, StationColumns), StationNames).entries[i] == Entry(t.entries[i].index, StationCells(t.entries[i]))
  {
    forall i | 0 <= i < |t.entries|
      ensures Rename(Select(t, StationColumns), StationNames).entries[i] == Entry(t.entries[i].index, StationCells(t.entries[i]))
    {
      RenamedStationAt(t, i);
    }
  }

  /** One station after the selection and the renaming. */
  lemma StationRow(b: Entry, n: Entry)
    requires n.cells.Keys == ColumnSet(["name_de", "name_it", "name_en", "longitude", "latitude"])
    requires n.cells["name_de"] == At(b, "NAME_D") && n.cells["name_it"] == At(b, "NAME_I")
    requires n.cells["name_en"] == At(b, "NAME_E")
    requires n.cells["longitude"] == At(b, "LONG") && n.cells["latitude"] == At(b, "LAT")
    ensures n.cells == StationCells(b)
  {
    var m := StationCells(b);
    assert n.cells.Keys == m.Keys by {
      assert ColumnSet(["name_de", "name_it", "name_en", "longitude", "latitude"])
        == {"name_de", "name_it", "name_en", "longitude", "latitude"};
    }
    forall k | k in m ensures n.cells[k] == m[k] {
      NameColumnsDiffer();
    }
  }

  /**
   * `read_csv(...)[['DATE', 'VALUE']]`, renamed to `date` and `hs`, with
   * `parse_date_safe` applied to `date` when there is at least one row.
   * KeyError when the feed lacks DATE or VALUE.
   */
  function Readings(t: Table, fx: Foreign): (r: Result<Table, FetchError>)
    requires Valid(t)
    ensures r.Ok? <==> "DATE" in t.columns && "VALUE" in t.columns
    ensures r.Err? ==> r.error.MissingColumns?
    ensures r.Ok? ==> Valid(r.value) && r.value.columns == ["date", "hs"] && |r.value.entries| == |t.entries|
    ensures r.Ok? ==> forall i :: 0 <= i < |t.entries| ==>
      r.value.entries[i] == Entry(t.entries[i].index, ReadingCells(t.entries[i], fx))
  {
    var missing := Absent(ReadingColumns, t.columns);
    if missing != [] then
      assert missing[0] in ReadingColumns;
      Err(MissingColumns(missing))
    else
      ReadingRenameFacts();
      RenamedReadings(t, fx);
      var named := Rename(Select(t, ReadingColumns), ReadingNames);
      Ok(if "date" in named.columns && |named.entries| > 0 then ParseDates(named, fx) else named)
  }

  /**
   * `read_csv(...)[['NAME_D', 'NAME_I', 'NAME_E', 'LONG', 'LAT']]`, renamed to
   * `name_de`, `name_it`, `name_en`, `longitude`, `latitude`.
   * KeyError when the feed lacks one of them.
   */
  function Stations(t: Table): (r: Result<Table, FetchError>)
    requires Valid(t)
    ensures r.Ok? <==> forall c :: c in StationColumns ==> c in t.columns
    ensures r.Err? ==> r.error.MissingColumns?
    ensures r.Ok? ==> Valid(r.value) && r.value.columns == ["name_de", "name_it", "name_en", "longitude", "latitude"]
    ensures r.Ok? ==> |r.value.entries| == |t.entries| && forall i :: 0 <= i < |t.entries| ==>
      r.value.entries[i] == Entry(t.entries[i].index, StationCells(t.entries[i]))
  {
    var missing := Absent(StationColumns, t.columns);
    if missing != [] then
      assert missing[0] in StationColumns;
      Err(MissingColumns(missing))
    else
      StationRenameFacts();
      RenamedStations(t);
      Ok(Rename(Select(t, StationColumns), StationNames))
  }

  /** The reading columns and the station columns do not overlap and make up the output. */
  lemma OutputColumnsSplit()
    ensures ColumnSet(["date", "hs"]) !! ColumnSet(["name_de", "name_it", "name_en", "longitude", "latitude"])
    ensures ["date", "hs"] + ["name_de", "name_it", "name_en", "longitude", "latitude"] == OutputColumns
  {
  }

  /**
   * `fetch_snow_depth_data(date, timeout)` after both GETs: the readings feed
   * is handled first, and a failure there ends the fetch before the station
   * feed is looked at. The requested date is sent nowhere (see
   * `RequestsIgnoreDate`), so it plays no part.
   */
  function Fetch(date: string, readings: Response, stations: Response, fx: Foreign): (r: Result<Table, FetchError>)
    requires readings.Parsed? ==> Valid(readings.table)
    requires stations.Parsed? ==> Valid(stations.table)
    ensures readings.TransportFailure? ==> r == Err(RequestFailed(FetchFailurePrefix + readings.detail))
    ensures readings.ParserFailure? ==> r == Err(CsvParseFailed(CsvFailurePrefix + readings.detail))
    ensures readings.ReaderFailure? ==> r == Err(ReaderFailed(readings.detail))
    ensures readings.Parsed? && "DATE" in readings.table.columns && "VALUE" in readings.table.columns ==>
      (stations.TransportFailure? ==> r == Err(RequestFailed(FetchFailurePrefix + stations.detail))) &&
      (stations.ParserFailure? ==> r == Err(CsvParseFailed(CsvFailurePrefix + stations.detail))) &&
      (stations.ReaderFailure? ==> r == Err(ReaderFailed(stations.detail)))
    ensures r.Ok? ==> readings.Parsed? && stations.Parsed?
    ensures r.Ok? ==> Valid(r.value) && r.value.columns == OutputColumns
    ensures r.Ok? ==> forall e :: e in r.value.entries ==> Complete(e.cells)
    ensures r.Ok? ==> Ascending(r.value.entries)
  {
    var measured :- Feed(readings);
    var values :- Readings(measured, fx);
    var registry :- Feed(stations);
    var sites :- Stations(registry);
    OutputColumnsSplit();
    var joined := Join(values, sites);
    ResetThenDropNaAscending(joined);
    Ok(DropNa(ResetIndex(joined)))
  }

  /** The output row for a reading and a station with the same code. */
  function Observation(a: Entry, b: Entry, fx: Foreign): map<string, Cell> {
    ReadingCells(a, fx) + StationCells(b)
  }

  /** With both feeds parsed and the needed columns present, the fetch returns a table. */
  lemma FetchSucceeds(date: string, rt: Table, st: Table, fx: Foreign)
    requires Valid(rt) && Valid(st)
    requires "DATE" in rt.columns && "VALUE" in rt.columns
    requires forall c :: c in StationColumns ==> c in st.columns
    ensures Fetch(date, Parsed(rt), Parsed(st), fx).Ok?
  {
  }

  /** `values` is what `Readings` makes of the parsed readings `rt`. */
  predicate ReadingsOf(values: Table, rt: Table, fx: Foreign) {
    && |values.entries| == |rt.entries|
    && forall i :: 0 <= i < |rt.entries| ==> values.entries[i] == Entry(rt.entries[i].index, ReadingCells(rt.entries[i], fx))
  }

  /** `sites` is what `Stations` makes of the parsed station list `st`. */
  predicate StationsOf(sites: Table, st: Table) {
    && |sites.entries| == |st.entries|
    && forall k :: 0 <= k < |st.entries| ==> sites.entries[k] == Entry(st.entries[k].index, StationCells(st.entries[k]))
  }

  /** A successful fetch is the null-free, re-indexed inner join of the two converted feeds. */
  lemma FetchUnfolds(date: string, rt: Table, st: Table, fx: Foreign, out: Table)
    requires Valid(rt) && Valid(st)
    requires Fetch(date, Parsed(rt), Parsed(st), fx) == Ok(out)
    ensures Readings(rt, fx).Ok? && Stations(st).Ok?
    ensures ReadingsOf(Readings(rt, fx).value, rt, fx) && StationsOf(Stations(st).value, st)
    ensures Valid(Readings(rt, fx).value) && Valid(Stations(st).value)
    ensures ColumnSet(Readings(rt, fx).value.columns) !! ColumnSet(Stations(st).value.columns)
    ensures out == DropNa(ResetIndex(Join(Readings(rt, fx).value, Stations(st).value)))
  {
    OutputColumnsSplit();
  }

  /** Every joined row is the row of a reading and a station with the same code. */
  lemma JoinedRowSound(rt: Table, st: Table, fx: Foreign, values: Table, sites: Table, m: Entry)
    requires Valid(values) && Valid(sites) && ColumnSet(values.columns) !! ColumnSet(sites.columns)
    requires ReadingsOf(values, rt, fx) && StationsOf(sites, st)
    requires m in Join(values, sites).entries
    ensures exists a, b :: a in rt.entries && b in st.entries && a.index == b.index && m.cells == Observation(a, b, fx)
  {
    var a', b' :| a' in values.entries && b' in sites.entries && a'.index == b'.index && m == Merge(a', b');
    var i :| 0 <= i < |values.entries| && values.entries[i] == a';
    var k :| 0 <= k < |sites.entries| && sites.entries[k] == b';
    var a, b := rt.entries[i], st.entries[k];
    assert a in rt.entries && b in st.entries;
    assert a.index == b.index && m.cells == Observation(a, b, fx);
  }

  /** Every output row is the row of a reading and a station with the same code. */
  lemma OutputRowSound(rt: Table, st: Table, fx: Foreign, values: Table, sites: Table, e: Entry)
    requires Valid(values) && Valid(sites) && ColumnSet(values.columns) !! ColumnSet(sites.columns)
    requires ReadingsOf(values, rt, fx) && StationsOf(sites, st)
    requires e in DropNa(ResetIndex(Join(values, sites))).entries
    ensures exists a, b :: a in rt.entries && b in st.entries && a.index == b.index && e.cells == Observation(a, b, fx)
  {
    ResetThenDropNaRows(Join(values, sites));
    var m :| m in Join(values, sites).entries && m.cells == e.cells;
    JoinedRowSound(rt, st, fx, values, sites, m);
  }

  /** Every reading and station with the same code give a joined row. */
  lemma JoinedRowComplete(rt: Table, st: Table, fx: Foreign, values: Table, sites: Table, a: Entry, b: Entry)
    requires Valid(values) && Valid(sites) && ColumnSet(values.columns) !! ColumnSet(sites.columns)
    requires ReadingsOf(values, rt, fx) && StationsOf(sites, st)
    requires a in rt.entries && b in st.entries && a.index == b.index
    ensures exists m :: m in Join(values, sites).entries && m.cells == Observation(a, b, fx)
  {
    var i :| 0 <= i < |rt.entries| && rt.entries[i] == a;
    var k :| 0 <= k < |st.entries| && st.entries[k] == b;
    var a', b' := values.entries[i], sites.entries[k];
    assert a' in values.entries && b' in sites.entries;
    assert Merge(a', b') in Join(values, sites).entries;
  }

  /** Every output row is the row of a reading and a station with the same code. */
  lemma FetchRowsSound(date: string, rt: Table, st: Table, fx: Foreign, out: Table)
    requires Valid(rt) && Valid(st)
    requires Fetch(date, Parsed(rt), Parsed(st), fx) == Ok(out)
    ensures forall e :: e in out.entries ==>
      exists a, b :: a in rt.entries && b in st.entries && a.index == b.index && e.cells == Observation(a, b, fx)
  {
    FetchUnfolds(date, rt, st, fx, out);
    var values, sites := Readings(rt, fx).value, Stations(st).value;
    forall e | e in out.entries
      ensures exists a, b :: a in rt.entries && b in st.entries && a.index == b.index && e.cells == Observation(a, b, fx)
    {
      OutputRowSound(rt, st, fx, values, sites, e);
    }
  }

  /** Every reading and station with the same code whose row has no missing value is in the output. */
  lemma FetchRowsComplete(date: string, rt: Table, st: Table, fx: Foreign, out: Table)
    requires Valid(rt) && Valid(st)
    requires Fetch(date, Parsed(rt), Parsed(st), fx) == Ok(out)
    ensures forall a, b :: a in rt.entries && b in st.entries && a.index == b.index && Complete(Observation(a, b, fx)) ==>
      exists e :: e in out.entries && e.cells == Observation(a, b, fx)
  {
    FetchUnfolds(date, rt, st, fx, out);
    var values, sites := Readings(rt, fx).value, Stations(st).value;
    ResetThenDropNaRows(Join(values, sites));
    forall a, b | a in rt.entries && b in st.entries && a.index == b.index && Complete(Observation(a, b, fx))
      ensures exists e :: e in out.entries && e.cells == Observation(a, b, fx)
    {
      JoinedRowComplete(rt, st, fx, values, sites, a, b);
    }
  }

  /**
   * The output is the inner join of readings and stations on the station
   * code, minus rows with a missing value: every output row is the row of a
   * reading and a station with equal codes, and every such pair whose row has
   * no missing value is in the output.
   */
  lemma FetchPairsReadingsWithStations(date: string, rt: Table, st: Table, fx: Foreign, out: Table)
    requires Valid(rt) && Valid(st)
    requires Fetch(date, Parsed(rt), Parsed(st), fx) == Ok(out)
    ensures forall e :: e in out.entries ==>
      exists a, b :: a in rt.entries && b in st.entries && a.index == b.index && e.cells == Observation(a, b, fx)
    ensures forall a, b :: a in rt.entries && b in st.entries && a.index == b.index && Complete(Observation(a, b, fx)) ==>
      exists e :: e in out.entries && e.cells == Observation(a, b, fx)
  {
    FetchRowsSound(date, rt, st, fx, out);
    FetchRowsComplete(date, rt, st, fx, out);
  }
}
