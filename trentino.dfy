/**
 * The Trentino fetcher (`TrentinoDataFetcher.fetch_snow_depth_data`) from the
 * point where the semicolon-separated readings and the XML station registry
 * have been parsed: the date is split into year, month and day parameters,
 * the readings (keyed by `codice_campo`) get `hs`, `hn` and `date` labels and
 * lenient dates, the stations are keyed by `codice` and get their Italian
 * name copied into the English and German name columns, and the inner join
 * on the code is re-indexed by position and cut down to eight columns. No row
 * is dropped for a missing value.
 */
module Trentino {
  import opened Wrappers
  import opened Frames
  import opened Python
  import opened Feeds
  import Text

  const ReadingsUrl := "https://dati.meteotrentino.it/service.asmx/rilieviNeveDiUnGiornoCsv"
  const StationsUrl := "https://dati.meteotrentino.it/service.asmx/listaCampiNeveXml"

  const ReadingNames: map<string, string> := map["HS" := "hs", "HN" := "hn", "DataRilievo" := "date"]
  const StationNames: map<string, string> := map["nome" := "name_it", "lat" := "latitude", "lon" := "longitude"]
  const OutputColumns: seq<string> := ["date", "hs", "hn", "name_it", "name_en", "name_de", "longitude", "latitude"]

  /**
   * `date.split('-')[0]`, `[1]` and `[2]` as the query parameters `anno`,
   * `mese` and `giorno`; IndexError when the date has fewer than three
   * dash-separated parts. Parts after the third are ignored.
   */
  function DateParams(date: string): (r: Result<map<string, string>, FetchError>)
    ensures r.Err? <==> Text.Count(date, '-') < 2
    ensures r.Err? ==> r.error == IndexOutOfRange
    ensures r.Ok? ==> r.value.Keys == {"anno", "mese", "giorno"}
    ensures r.Ok? ==> forall k :: k in r.value ==> '-' !in r.value[k]
  {
    var parts := Text.Split(date, '-');
    Text.SplitCount(date, '-');
    if |parts| < 3 then Err(IndexOutOfRange)
    else
      Text.SplitPiecesLackSeparator(date, '-');
      assert parts[0] in parts && parts[1] in parts && parts[2] in parts;
      Ok(map["anno" := parts[0], "mese" := parts[1], "giorno" := parts[2]])
  }

  /** A date written year-month-day gives back its three fields as the parameters. */
  lemma DateParamsOfIsoDate(y: string, m: string, d: string)
    requires '-' !in y && '-' !in m && '-' !in d
    ensures DateParams(y + "-" + m + "-" + d) == Ok(map["anno" := y, "mese" := m, "giorno" := d])
  {
    var parts := [y, m, d];
    assert parts[1..] == [m, d] && parts[1..][1..] == [d];
    assert Text.JoinWith([d], '-') == d;
    assert Text.JoinWith([m, d], '-') == m + "-" + d;
    assert Text.JoinWith(parts, '-') == y + "-" + (m + "-" + d);
    assert y + "-" + m + "-" + d == y + "-" + (m + "-" + d);
    Text.SplitJoin(parts, '-');
  }

  /** The two GETs of a fetch: the day's readings with the date parameters, then the station registry. */
  function Requests(date: string): (r: Result<seq<Request>, FetchError>)
    ensures r.Err? <==> DateParams(date).Err?
    ensures r.Ok? ==> |r.value| == 2 && r.value[0].url == ReadingsUrl && r.value[1].url == StationsUrl
    ensures r.Ok? ==> r.value[0].params == DateParams(date).value && r.value[1].params == map[]
  {
    var params :- DateParams(date);
    Ok([Request(ReadingsUrl, params), Request(StationsUrl, map[])])
  }

  /** The value a reading column ends up with: the one labelled `date` is converted, the others are kept. */
  function Converted(col: string, v: Cell, fx: Foreign): Cell {
    if col == "date" then ParseDateSafe(v, fx) else v
  }

  /** Converting the `date` column changes that column's cells and no other. */
  lemma DatedCell(t: Table, fx: Foreign, i: int, k: string)
    requires Valid(t) && "date" in t.columns && 0 <= i < |t.entries| && k in t.entries[i].cells
    ensures k in ParseDates(t, fx).entries[i].cells
    ensures ParseDates(t, fx).entries[i].cells[k] == Converted(k, t.entries[i].cells[k], fx)
  {
  }

  /** What renaming by `m` and converting the column that ends up as `date` does to each cell. */
  lemma RenamedAndDated(t: Table, m: map<string, string>, fx: Foreign)
    requires Valid(t) && RenameIsInjective(t.columns, m)
    ensures forall i, c :: 0 <= i < |t.entries| && c in t.columns ==>
      Renamed(m, c) in Rename(t, m).entries[i].cells &&
      Rename(t, m).entries[i].cells[Renamed(m, c)] == t.entries[i].cells[c]
    ensures "date" in Rename(t, m).columns ==> forall i, c :: 0 <= i < |t.entries| && c in t.columns ==>
      ParseDates(Rename(t, m), fx).entries[i].cells[Renamed(m, c)] == Converted(Renamed(m, c), t.entries[i].cells[c], fx)
    ensures "date" !in Rename(t, m).columns ==> forall c :: c in t.columns ==> Renamed(m, c) != "date"
  {
    var named := Rename(t, m);
    if "date" !in named.columns {
      forall c | c in t.columns ensures Renamed(m, c) != "date" {
        assert Renamed(m, c) in ColumnSet(named.columns);
      }
    } else {
      forall i, c | 0 <= i < |t.entries| && c in t.columns
        ensures ParseDates(named, fx).entries[i].cells[Renamed(m, c)] == Converted(Renamed(m, c), t.entries[i].cells[c], fx)
      {
        DatedCell(named, fx, i, Renamed(m, c));
      }
    }
  }

  /**
   * The readings after `rename(columns={'HS': 'hs', 'HN': 'hn', 'DataRilievo': 'date'})`
   * and, when there is a `date` column and at least one row, `parse_date_safe`
   * applied to it. Every column keeps its cells under its new label.
   */
  function Readings(t: Table, fx: Foreign): (r: Table)
    requires Valid(t) && RenameIsInjective(t.columns, ReadingNames)
    ensures Valid(r) && r.columns == RenameColumns(t.columns, ReadingNames) && |r.entries| == |t.entries|
    ensures forall i :: 0 <= i < |t.entries| ==> r.entries[i].index == t.entries[i].index
    ensures forall i, c :: 0 <= i < |t.entries| && c in t.columns ==>
      Renamed(ReadingNames, c) in r.entries[i].cells &&
      r.entries[i].cells[Renamed(ReadingNames, c)] == Converted(Renamed(ReadingNames, c), t.entries[i].cells[c], fx)
  {
    var named := Rename(t, ReadingNames);
    RenamedAndDated(t, ReadingNames, fx);
    if "date" in named.columns && |named.entries| > 0 then ParseDates(named, fx) else named
  }

  /** The Italian name column after the renaming comes from `nome`, or is one the registry already has. */
  lemma BecomesNameIt(c: string)
    ensures Renamed(StationNames, c) == "name_it" <==> c == "nome" || c == "name_it"
  {
  }

  /** After `set_index('codice')` the other columns remain, so a renaming one-to-one before stays one-to-one. */
  lemma KeyedColumns(t: Table, m: map<string, string>)
    requires Valid(t) && "codice" in t.columns && RenameIsInjective(t.columns, m)
    ensures forall c :: c in SetIndex(t, "codice").columns <==> c in t.columns && c != "codice"
    ensures RenameIsInjective(SetIndex(t, "codice").columns, m)
  {
    var keyed := SetIndex(t, "codice");
    forall c ensures c in keyed.columns <==> c in t.columns && c != "codice" {
      assert c in keyed.columns <==> c in ColumnSet(keyed.columns);
    }
  }

  /** The name column exists after the renaming exactly when the registry has `nome` or already has `name_it`. */
  lemma NameItPresent(t: Table)
    requires Valid(t) && "codice" in t.columns && RenameIsInjective(t.columns, StationNames)
    ensures RenameIsInjective(SetIndex(t, "codice").columns, StationNames)
    ensures "name_it" in Rename(SetIndex(t, "codice"), StationNames).columns <==> "nome" in t.columns || "name_it" in t.columns
  {
    KeyedColumns(t, StationNames);
    var keyed := SetIndex(t, "codice");
    var named := Rename(keyed, StationNames);
    assert "name_it" in named.columns <==> "name_it" in ColumnSet(named.columns);
    forall c | c in keyed.columns ensures Renamed(StationNames, c) == "name_it" <==> c == "nome" || c == "name_it" {
      BecomesNameIt(c);
    }
    if "nome" in t.columns {
      assert Renamed(StationNames, "nome") in ColumnSet(named.columns);
    } else if "name_it" in t.columns {
      assert Renamed(StationNames, "name_it") in ColumnSet(named.columns);
    }
  }

  /** Cell `c` of station `i` after keying and renaming. */
  lemma KeyedRenamedCell(t: Table, m: map<string, string>, i: int, c: string)
    requires Valid(t) && "codice" in t.columns
    requires RenameIsInjective(SetIndex(t, "codice").columns, m)
    requires 0 <= i < |t.entries| && c in t.columns && c != "codice"
    ensures Renamed(m, c) in Rename(SetIndex(t, "codice"), m).entries[i].cells
    ensures Rename(SetIndex(t, "codice"), m).entries[i].cells[Renamed(m, c)] == t.entries[i].cells[c]
  {
    var keyed := SetIndex(t, "codice");
    assert c in ColumnSet(keyed.columns);
    assert keyed.entries[i].cells[c] == t.entries[i].cells[c];
  }

  /** Copying `name_it` into `name_en` and `name_de` leaves every other cell as it was. */
  lemma CopiesLeaveOthers(named: Table, i: int, k: string)
    requires Valid(named) && "name_it" in named.columns && 0 <= i < |named.entries|
    requires k in named.entries[i].cells && k != "name_en" && k != "name_de"
    ensures var both := Assign(Assign(named, "name_en", "name_it"), "name_de", "name_it");
      k in both.entries[i].cells && both.entries[i].cells[k] == named.entries[i].cells[k]
  {
  }

  /** The three name labels are different. */
  lemma NameLabelsDiffer()
    ensures "name_it" != "name_en" && "name_it" != "name_de" && "name_en" != "name_de"
  {
    assert "name_it"[5] != "name_en"[5] && "name_it"[5] != "name_de"[5] && "name_en"[5] != "name_de"[5];
  }

  /** Copying `name_it` into `name_en` and `name_de` keeps each label and makes the three names agree. */
  lemma CopiesAgree(named: Table, i: int)
    requires Valid(named) && "name_it" in named.columns && 0 <= i < |named.entries|
    ensures var both := Assign(Assign(named, "name_en", "name_it"), "name_de", "name_it");
      both.entries[i].index == named.entries[i].index && NamesAgree(both.entries[i].cells)
  {
    NameLabelsDiffer();
    assert "name_it" in ColumnSet(named.columns);
    var name := named.entries[i].cells["name_it"];
    var once := Assign(named, "name_en", "name_it");
    assert once.entries[i].cells == named.entries[i].cells["name_en" := name];
    var both := Assign(once, "name_de", "name_it");
    assert both.entries[i].cells == once.entries[i].cells["name_de" := name];
  }

  /** Station `i` after keying, renaming and copying the name: its label is its code and its three names agree. */
  lemma KeyedRenamedNames(t: Table, m: map<string, string>, i: int)
    requires Valid(t) && "codice" in t.columns
    requires RenameIsInjective(SetIndex(t, "codice").columns, m)
    requires "name_it" in Rename(SetIndex(t, "codice"), m).columns
    requires 0 <= i < |t.entries|
    ensures var both := Assign(Assign(Rename(SetIndex(t, "codice"), m), "name_en", "name_it"), "name_de", "name_it");
      both.entries[i].index == Key(t.entries[i].cells["codice"]) && NamesAgree(both.entries[i].cells)
  {
    var named := Rename(SetIndex(t, "codice"), m);
    assert named.entries[i].index == Key(t.entries[i].cells["codice"]);
    CopiesAgree(named, i);
  }

  /**
   * The cells of each station after keying by `codice`, renaming by `m` and
   * copying `name_it` into `name_en` and `name_de`.
   */
  lemma KeyedRenamedCopied(t: Table, m: map<string, string>)
    requires Valid(t) && "codice" in t.columns
    requires RenameIsInjective(SetIndex(t, "codice").columns, m)
    requires "name_it" in Rename(SetIndex(t, "codice"), m).columns
    ensures var both := Assign(Assign(Rename(SetIndex(t, "codice"), m), "name_en", "name_it"), "name_de", "name_it");
      && (forall i :: 0 <= i < |t.entries| ==> both.entries[i].index == Key(t.entries[i].cells["codice"]))
      && (forall i, c ::
            0 <= i < |t.entries| && c in t.columns && c != "codice" &&
            Renamed(m, c) != "name_en" && Renamed(m, c) != "name_de" ==>
            Renamed(m, c) in both.entries[i].cells && both.entries[i].cells[Renamed(m, c)] == t.entries[i].cells[c])
      && (forall i :: 0 <= i < |t.entries| ==> NamesAgree(both.entries[i].cells))
  {
    var both := Assign(Assign(Rename(SetIndex(t, "codice"), m), "name_en", "name_it"), "name_de", "name_it");
    forall i | 0 <= i < |t.entries|
      ensures both.entries[i].index == Key(t.entries[i].cells["codice"])
      ensures NamesAgree(both.entries[i].cells)
    {
      KeyedRenamedNames(t, m, i);
    }
    forall i, c |
      0 <= i < |t.entries| && c in t.columns && c != "codice" &&
      Renamed(m, c) != "name_en" && Renamed(m, c) != "name_de"
      ensures Renamed(m, c) in both.entries[i].cells && both.entries[i].cells[Renamed(m, c)] == t.entries[i].cells[c]
    {
      KeyedRenamedCell(t, m, i, c);
      CopiesLeaveOthers(Rename(SetIndex(t, "codice"), m), i, Renamed(m, c));
    }
  }

  /**
   * The station registry after `set_index('codice')`, the renaming of `nome`,
   * `lat` and `lon`, and the copies of `name_it` into `name_en` and
   * `name_de`. KeyError when there is no `codice` column, or no `name_it`
   * column to copy.
   */
  function Stations(t: Table): (r: Result<Table, FetchError>)
    requires Valid(t) && RenameIsInjective(t.columns, StationNames)
    ensures "codice" !in t.columns ==> r == Err(MissingColumns(["codice"]))
    ensures "codice" in t.columns ==> (r.Ok? <==> "nome" in t.columns || "name_it" in t.columns)
    ensures "codice" in t.columns && r.Err? ==> r == Err(MissingColumns(["name_it"]))
    ensures r.Ok? ==> Valid(r.value) && |r.value.entries| == |t.entries|
    ensures r.Ok? ==> forall i :: 0 <= i < |t.entries| ==> r.value.entries[i].index == Key(t.entries[i].cells["codice"])
    ensures r.Ok? ==> forall i, c ::
      0 <= i < |t.entries| && c in t.columns && c != "codice" &&
      Renamed(StationNames, c) != "name_en" && Renamed(StationNames, c) != "name_de" ==>
      Renamed(StationNames, c) in r.value.entries[i].cells &&
      r.value.entries[i].cells[Renamed(StationNames, c)] == t.entries[i].cells[c]
    ensures r.Ok? ==> forall i :: 0 <= i < |t.entries| ==> NamesAgree(r.value.entries[i].cells)
  {
    if "codice" !in t.columns then Err(MissingColumns(["codice"]))
    else
      NameItPresent(t);
      var named := Rename(SetIndex(t, "codice"), StationNames);
      if "name_it" !in named.columns then Err(MissingColumns(["name_it"]))
      else
        KeyedRenamedCopied(t, StationNames);
        Ok(Assign(Assign(named, "name_en", "name_it"), "name_de", "name_it"))
  }

  /** The cells a reading with the usual columns contributes to its output row. */
  function ReadingCells(a: Entry, fx: Foreign): map<string, Cell> {
    map["date" := ParseDateSafe(At(a, "DataRilievo"), fx), "hs" := At(a, "HS"), "hn" := At(a, "HN")]
  }

  /** The cells a station with the usual columns contributes: its one name three times, and its coordinates. */
  function StationCells(b: Entry): map<string, Cell> {
    map["name_it" := At(b, "nome"), "name_en" := At(b, "nome"), "name_de" := At(b, "nome"),
        "longitude" := At(b, "lon"), "latitude" := At(b, "lat")]
  }

  /** The output row for a reading and a station with the same code. */
  function Observation(a: Entry, b: Entry, fx: Foreign): map<string, Cell> {
    ReadingCells(a, fx) + StationCells(b)
  }

  /** The three names of a station agree in every row it takes part in. */
  predicate NamesAgree(cells: map<string, Cell>) {
    "name_it" in cells && "name_en" in cells && "name_de" in cells &&
    cells["name_en"] == cells["name_it"] && cells["name_de"] == cells["name_it"]
  }

  /** A joined row takes its names from its station. */
  lemma JoinKeepsNames(values: Table, sites: Table, m: Entry)
    requires Valid(values) && Valid(sites) && ColumnSet(values.columns) !! ColumnSet(sites.columns)
    requires forall k :: 0 <= k < |sites.entries| ==> NamesAgree(sites.entries[k].cells)
    requires m in Join(values, sites).entries
    ensures NamesAgree(m.cells)
  {
    var a, b :| a in values.entries && b in sites.entries && a.index == b.index && m == Merge(a, b);
    var k :| 0 <= k < |sites.entries| && sites.entries[k] == b;
  }

  /** Station rows whose three name columns agree keep agreeing through the join, the re-indexing and the projection. */
  lemma NamesCopied(values: Table, sites: Table)
    requires Distinct(OutputColumns)
    requires Valid(values) && Valid(sites) && ColumnSet(values.columns) !! ColumnSet(sites.columns)
    requires forall k :: 0 <= k < |sites.entries| ==> NamesAgree(sites.entries[k].cells)
    requires forall c :: c in OutputColumns ==> c in Join(values, sites).columns
    ensures forall e :: e in Select(ResetIndex(Join(values, sites)), OutputColumns).entries ==> NamesAgree(e.cells)
  {
    var joined := Join(values, sites);
    var out := Select(ResetIndex(joined), OutputColumns);
    forall e | e in out.entries
      ensures NamesAgree(e.cells)
    {
      var i :| 0 <= i < |out.entries| && out.entries[i] == e;
      assert "name_it" in OutputColumns && "name_en" in OutputColumns && "name_de" in OutputColumns;
      assert joined.entries[i] in joined.entries;
      JoinKeepsNames(values, sites, joined.entries[i]);
    }
  }

  lemma OutputColumnsDistinct()
    ensures Distinct(OutputColumns)
  {
    NameLabelsDiffer();
    assert "hs"[1] != "hn"[1];
  }

  /**
   * `df.join(stations_df, how='inner').reset_index(drop=True)` followed by the
   * projection on the eight output columns: ValueError when the two sides
   * share a column label, KeyError when an output column is on neither side.
   */
  function Combine(values: Table, sites: Table): (r: Result<Table, FetchError>)
    requires Valid(values) && Valid(sites)
    ensures !(ColumnSet(values.columns) !! ColumnSet(sites.columns)) ==> r == Err(ColumnsOverlap(Shared(values.columns, sites.columns)))
    ensures r.Ok? <==>
      (ColumnSet(values.columns) !! ColumnSet(sites.columns) &&
       forall c :: c in OutputColumns ==> c in values.columns || c in sites.columns)
    ensures r.Err? ==> r.error.ColumnsOverlap? || r.error.MissingColumns?
    ensures r.Ok? ==> Valid(r.value) && r.value.columns == OutputColumns
    ensures r.Ok? ==> |r.value.entries| == |Join(values, sites).entries|
    ensures r.Ok? ==> forall i :: 0 <= i < |r.value.entries| ==> r.value.entries[i].index == Pos(i)
    ensures r.Ok? && (forall k :: 0 <= k < |sites.entries| ==> NamesAgree(sites.entries[k].cells)) ==>
      forall e :: e in r.value.entries ==> NamesAgree(e.cells)
  {
    var overlap := Shared(values.columns, sites.columns);
    if overlap != [] then Err(ColumnsOverlap(overlap))
    else
      var joined := ResetIndex(Join(values, sites));
      var missing := Absent(OutputColumns, joined.columns);
      if missing != [] then
        assert missing[0] in OutputColumns && missing[0] !in values.columns + sites.columns;
        Err(MissingColumns(missing))
      else
        Projection(values, sites);
        Ok(Select(joined, OutputColumns))
  }

  /** The eight output columns taken from the join of readings and stations with disjoint columns. */
  lemma Projection(values: Table, sites: Table)
    requires Valid(values) && Valid(sites) && ColumnSet(values.columns) !! ColumnSet(sites.columns)
    requires forall c :: c in OutputColumns ==> c in ResetIndex(Join(values, sites)).columns
    ensures forall c :: c in OutputColumns ==> c in values.columns || c in sites.columns
    ensures Distinct(OutputColumns)
    ensures var out := Select(ResetIndex(Join(values, sites)), OutputColumns);
      && Valid(out) && out.columns == OutputColumns
      && |out.entries| == |Join(values, sites).entries|
      && (forall i :: 0 <= i < |out.entries| ==> out.entries[i].index == Pos(i))
      && ((forall k :: 0 <= k < |sites.entries| ==> NamesAgree(sites.entries[k].cells)) ==>
            forall e :: e in out.entries ==> NamesAgree(e.cells))
  {
    OutputColumnsDistinct();
    if forall k :: 0 <= k < |sites.entries| ==> NamesAgree(sites.entries[k].cells) {
      NamesCopied(values, sites);
    }
  }

  /**
   * `fetch_snow_depth_data(date, timeout)` after both GETs. The date is split
   * before anything is sent; the readings feed is handled before the station
   * registry; a join whose sides share a column label fails; the eight output
   * columns are then projected.
   */
  function Fetch(date: string, readings: Response, stations: Response, fx: Foreign): (r: Result<Table, FetchError>)
    requires readings.Parsed? ==> Valid(readings.table) && RenameIsInjective(readings.table.columns, ReadingNames)
    requires stations.Parsed? ==> Valid(stations.table) && RenameIsInjective(stations.table.columns, StationNames)
    ensures DateParams(date).Err? ==> r == Err(IndexOutOfRange)
    ensures DateParams(date).Ok? && readings.TransportFailure? ==> r == Err(RequestFailed(FetchFailurePrefix + readings.detail))
    ensures DateParams(date).Ok? && readings.ParserFailure? ==> r == Err(CsvParseFailed(CsvFailurePrefix + readings.detail))
    ensures DateParams(date).Ok? && readings.ReaderFailure? ==> r == Err(ReaderFailed(readings.detail))
    ensures DateParams(date).Ok? && readings.Parsed? ==>
      (stations.TransportFailure? ==> r == Err(RequestFailed(FetchFailurePrefix + stations.detail))) &&
      (stations.ParserFailure? ==> r == Err(CsvParseFailed(CsvFailurePrefix + stations.detail))) &&
      (stations.ReaderFailure? ==> r == Err(ReaderFailed(stations.detail)))
    ensures r.Ok? ==> readings.Parsed? && stations.Parsed?
    ensures r.Ok? ==> Valid(r.value) && r.value.columns == OutputColumns
    ensures r.Ok? ==> forall i :: 0 <= i < |r.value.entries| ==> r.value.entries[i].index == Pos(i)
    ensures r.Ok? ==> forall e :: e in r.value.entries ==> NamesAgree(e.cells)
  {
    var params :- DateParams(date);
    var measured :- Feed(readings);
    var values := Readings(measured, fx);
    var registry :- Feed(stations);
    var sites :- Stations(registry);
    Combine(values, sites)
  }

  /** `cells` holds every cell of `part`, under the same label. */
  predicate Extends(cells: map<string, Cell>, part: map<string, Cell>) {
    forall c :: c in part ==> c in cells && cells[c] == part[c]
  }

  /** `values` is what `Readings` makes of readings `rt` that have the usual columns. */
  predicate ReadingsOf(values: Table, rt: Table, fx: Foreign) {
    && |values.entries| == |rt.entries|
    && forall i :: 0 <= i < |rt.entries| ==>
         values.entries[i].index == rt.entries[i].index && Extends(values.entries[i].cells, ReadingCells(rt.entries[i], fx))
  }

  /** `sites` is what `Stations` makes of a registry `st` that has the usual columns. */
  predicate StationsOf(sites: Table, st: Table) {
    && |sites.entries| == |st.entries|
    && forall k :: 0 <= k < |st.entries| ==>
         sites.entries[k].index == Key(At(st.entries[k], "codice")) && Extends(sites.entries[k].cells, StationCells(st.entries[k]))
  }

  lemma ReadingRenameFacts()
    ensures Renamed(ReadingNames, "HS") == "hs" && Renamed(ReadingNames, "HN") == "hn"
    ensures Renamed(ReadingNames, "DataRilievo") == "date"
  {
  }

  /** A row that holds a reading's converted date, depth and new snow extends the reading's cells. */
  lemma ExtendsReading(cells: map<string, Cell>, a: Entry, fx: Foreign)
    requires "date" in cells && cells["date"] == ParseDateSafe(At(a, "DataRilievo"), fx)
    requires "hs" in cells && cells["hs"] == At(a, "HS")
    requires "hn" in cells && cells["hn"] == At(a, "HN")
    ensures Extends(cells, ReadingCells(a, fx))
  {
  }

  /** Reading `i` after the renaming and the date conversion. */
  lemma ReadingAt(rt: Table, fx: Foreign, i: int)
    requires Valid(rt) && RenameIsInjective(rt.columns, ReadingNames)
    requires "HS" in rt.columns && "HN" in rt.columns && "DataRilievo" in rt.columns
    requires 0 <= i < |rt.entries|
    ensures Readings(rt, fx).entries[i].index == rt.entries[i].index
    ensures Extends(Readings(rt, fx).entries[i].cells, ReadingCells(rt.entries[i], fx))
  {
    ReadingRenameFacts();
    var a := rt.entries[i];
    var cells := Readings(rt, fx).entries[i].cells;
    assert a.cells.Keys == ColumnSet(rt.columns);
    assert "HS" in a.cells && "HN" in a.cells && "DataRilievo" in a.cells;
    assert cells["hs"] == Converted(Renamed(ReadingNames, "HS"), a.cells["HS"], fx);
    assert cells["hn"] == Converted(Renamed(ReadingNames, "HN"), a.cells["HN"], fx);
    assert cells["date"] == Converted(Renamed(ReadingNames, "DataRilievo"), a.cells["DataRilievo"], fx);
    ExtendsReading(cells, a, fx);
  }

  /** With the usual reading columns, `Readings` keeps every reading's depth, new snow and converted date. */
  lemma ReadingsMeet(rt: Table, fx: Foreign)
    requires Valid(rt) && RenameIsInjective(rt.columns, ReadingNames)
    requires "HS" in rt.columns && "HN" in rt.columns && "DataRilievo" in rt.columns
    ensures ReadingsOf(Readings(rt, fx), rt, fx)
  {
    forall i | 0 <= i < |rt.entries|
      ensures Readings(rt, fx).entries[i].index == rt.entries[i].index
      ensures Extends(Readings(rt, fx).entries[i].cells, ReadingCells(rt.entries[i], fx))
    {
      ReadingAt(rt, fx, i);
    }
  }

  lemma StationRenameFacts()
    ensures Renamed(StationNames, "nome") == "name_it"
    ensures Renamed(StationNames, "lat") == "latitude" && Renamed(StationNames, "lon") == "longitude"
  {
  }

  /** A row that holds a station's name three times and its coordinates extends the station's cells. */
  lemma ExtendsStation(cells: map<string, Cell>, b: Entry)
    requires NamesAgree(cells) && cells["name_it"] == At(b, "nome")
    requires "longitude" in cells && cells["longitude"] == At(b, "lon")
    requires "latitude" in cells && cells["latitude"] == At(b, "lat")
    ensures Extends(cells, StationCells(b))
  {
  }

  /** Cell `c` of station `k` in the registry `Stations` makes. */
  lemma StationCell(st: Table, k: int, c: string)
    requires Valid(st) && RenameIsInjective(st.columns, StationNames) && Stations(st).Ok?
    requires 0 <= k < |st.entries| && c in st.columns && c != "codice"
    requires Renamed(StationNames, c) != "name_en" && Renamed(StationNames, c) != "name_de"
    ensures Renamed(StationNames, c) in Stations(st).value.entries[k].cells
    ensures Stations(st).value.entries[k].cells[Renamed(StationNames, c)] == At(st.entries[k], c)
  {
    assert st.entries[k].cells.Keys == ColumnSet(st.columns);
  }

  /** Station `k` after keying, renaming and copying the name. */
  lemma StationAt(st: Table, k: int)
    requires Valid(st) && RenameIsInjective(st.columns, StationNames)
    requires "codice" in st.columns && "nome" in st.columns && "lat" in st.columns && "lon" in st.columns
    requires 0 <= k < |st.entries|
    ensures Stations(st).Ok?
    ensures Stations(st).value.entries[k].index == Key(At(st.entries[k], "codice"))
    ensures Extends(Stations(st).value.entries[k].cells, StationCells(st.entries[k]))
  {
    StationRenameFacts();
    var b := st.entries[k];
    assert b.cells.Keys == ColumnSet(st.columns) && "codice" in b.cells;
    StationCell(st, k, "nome");
    StationCell(st, k, "lat");
    StationCell(st, k, "lon");
    ExtendsStation(Stations(st).value.entries[k].cells, b);
  }

  /** With the usual registry columns, `Stations` keeps every station's code, name and coordinates. */
  lemma StationsMeet(st: Table)
    requires Valid(st) && RenameIsInjective(st.columns, StationNames)
    requires "codice" in st.columns && "nome" in st.columns && "lat" in st.columns && "lon" in st.columns
    ensures Stations(st).Ok? && StationsOf(Stations(st).value, st)
  {
    forall k | 0 <= k < |st.entries|
      ensures Stations(st).value.entries[k].index == Key(At(st.entries[k], "codice"))
      ensures Extends(Stations(st).value.entries[k].cells, StationCells(st.entries[k]))
    {
      StationAt(st, k);
    }
  }

  /** A merged row keeps the cells of the left side's part and of the right side's part when the sides share no label. */
  lemma MergeExtends(a: Entry, b: Entry, p: map<string, Cell>, q: map<string, Cell>)
    requires a.cells.Keys !! b.cells.Keys
    requires Extends(a.cells, p) && Extends(b.cells, q)
    ensures Extends(Merge(a, b).cells, p + q)
  {
    forall c | c in p + q ensures c in Merge(a, b).cells && Merge(a, b).cells[c] == (p + q)[c] {
      if c !in q {
        assert c in a.cells && c !in b.cells;
      }
    }
  }

  /** Two rows of tables without shared labels have no label in common. */
  lemma RowsDisjoint(values: Table, sites: Table, a: Entry, b: Entry)
    requires Valid(values) && Valid(sites) && ColumnSet(values.columns) !! ColumnSet(sites.columns)
    requires a in values.entries && b in sites.entries
    ensures a.cells.Keys !! b.cells.Keys
  {
  }

  /** A joined row holds the cells of its reading and of its station. */
  lemma JoinedRowSound(rt: Table, st: Table, fx: Foreign, values: Table, sites: Table, m: Entry)
    requires Valid(values) && Valid(sites) && ColumnSet(values.columns) !! ColumnSet(sites.columns)
    requires ReadingsOf(values, rt, fx) && StationsOf(sites, st)
    requires m in Join(values, sites).entries
    ensures exists a, b ::
      a in rt.entries && b in st.entries && a.index == Key(At(b, "codice")) && Extends(m.cells, Observation(a, b, fx))
  {
    var a', b' :| a' in values.entries && b' in sites.entries && a'.index == b'.index && m == Merge(a', b');
    var i :| 0 <= i < |values.entries| && values.entries[i] == a';
    var k :| 0 <= k < |sites.entries| && sites.entries[k] == b';
    var a, b := rt.entries[i], st.entries[k];
    assert a in rt.entries && b in st.entries;
    RowsDisjoint(values, sites, a', b');
    MergeExtends(a', b', ReadingCells(a, fx), StationCells(b));
    assert a.index == Key(At(b, "codice")) && Extends(m.cells, Observation(a, b, fx));
  }

  /** Every reading and station with the same code give a joined row. */
  lemma JoinedRowComplete(rt: Table, st: Table, fx: Foreign, values: Table, sites: Table, a: Entry, b: Entry)
    requires Valid(values) && Valid(sites) && ColumnSet(values.columns) !! ColumnSet(sites.columns)
    requires ReadingsOf(values, rt, fx) && StationsOf(sites, st)
    requires a in rt.entries && b in st.entries && a.index == Key(At(b, "codice"))
    ensures exists m :: m in Join(values, sites).entries && Extends(m.cells, Observation(a, b, fx))
  {
    var i :| 0 <= i < |rt.entries| && rt.entries[i] == a;
    var k :| 0 <= k < |st.entries| && st.entries[k] == b;
    var a', b' := values.entries[i], sites.entries[k];
    assert a' in values.entries && b' in sites.entries;
    assert Merge(a', b') in Join(values, sites).entries;
    RowsDisjoint(values, sites, a', b');
    MergeExtends(a', b', ReadingCells(a, fx), StationCells(b));
  }

  /** An output row has exactly the output columns, as the row of a reading and a station does. */
  lemma ObservationColumns(a: Entry, b: Entry, fx: Foreign)
    ensures Observation(a, b, fx).Keys == ColumnSet(OutputColumns)
  {
    assert ReadingCells(a, fx).Keys == {"date", "hs", "hn"};
    assert StationCells(b).Keys == {"name_it", "name_en", "name_de", "longitude", "latitude"};
    assert ColumnSet(OutputColumns) == {"date", "hs", "hn"} + {"name_it", "name_en", "name_de", "longitude", "latitude"} by {
      forall c ensures c in ColumnSet(OutputColumns) <==> c in OutputColumns {
      }
    }
  }

  /** The projection of a re-indexed joined row equals the row of its reading and station. */
  lemma ProjectedRow(t: Table, i: int, obs: map<string, Cell>)
    requires Valid(t) && Distinct(OutputColumns) && forall c :: c in OutputColumns ==> c in t.columns
    requires 0 <= i < |t.entries| && Extends(t.entries[i].cells, obs) && obs.Keys == ColumnSet(OutputColumns)
    ensures Select(ResetIndex(t), OutputColumns).entries[i].cells == obs
  {
    var out := Select(ResetIndex(t), OutputColumns);
    assert out.entries[i].cells.Keys == ColumnSet(OutputColumns);
  }

  /** What a successful `Combine` returns. */
  lemma CombineUnfolds(values: Table, sites: Table)
    requires Valid(values) && Valid(sites) && Combine(values, sites).Ok?
    ensures ColumnSet(values.columns) !! ColumnSet(sites.columns) && Distinct(OutputColumns)
    ensures forall c :: c in OutputColumns ==> c in ResetIndex(Join(values, sites)).columns
    ensures Combine(values, sites).value == Select(ResetIndex(Join(values, sites)), OutputColumns)
  {
    OutputColumnsDistinct();
  }

  /** Every projected row is the row of a reading and a station with the same code. */
  lemma ProjectedRowSound(rt: Table, st: Table, fx: Foreign, values: Table, sites: Table, e: Entry)
    requires Valid(values) && Valid(sites) && ColumnSet(values.columns) !! ColumnSet(sites.columns)
    requires Distinct(OutputColumns) && forall c :: c in OutputColumns ==> c in Join(values, sites).columns
    requires ReadingsOf(values, rt, fx) && StationsOf(sites, st)
    requires e in Select(ResetIndex(Join(values, sites)), OutputColumns).entries
    ensures exists a, b ::
      a in rt.entries && b in st.entries && a.index == Key(At(b, "codice")) && e.cells == Observation(a, b, fx)
  {
    var joined := Join(values, sites);
    var out := Select(ResetIndex(joined), OutputColumns);
    var i :| 0 <= i < |out.entries| && out.entries[i] == e;
    assert joined.entries[i] in joined.entries;
    JoinedRowSound(rt, st, fx, values, sites, joined.entries[i]);
    var a, b :| a in rt.entries && b in st.entries && a.index == Key(At(b, "codice")) &&
      Extends(joined.entries[i].cells, Observation(a, b, fx));
    ObservationColumns(a, b, fx);
    ProjectedRow(joined, i, Observation(a, b, fx));
  }

  /** Every reading and station with the same code give a projected row. */
  lemma ProjectedRowComplete(rt: Table, st: Table, fx: Foreign, values: Table, sites: Table, a: Entry, b: Entry)
    requires Valid(values) && Valid(sites) && ColumnSet(values.columns) !! ColumnSet(sites.columns)
    requires Distinct(OutputColumns) && forall c :: c in OutputColumns ==> c in Join(values, sites).columns
    requires ReadingsOf(values, rt, fx) && StationsOf(sites, st)
    requires a in rt.entries && b in st.entries && a.index == Key(At(b, "codice"))
    ensures HasRowFor(Select(ResetIndex(Join(values, sites)), OutputColumns), a, b, fx)
  {
    var joined := Join(values, sites);
    var out := Select(ResetIndex(joined), OutputColumns);
    JoinedRowComplete(rt, st, fx, values, sites, a, b);
    var m :| m in joined.entries && Extends(m.cells, Observation(a, b, fx));
    var i :| 0 <= i < |joined.entries| && joined.entries[i] == m;
    ObservationColumns(a, b, fx);
    ProjectedRow(joined, i, Observation(a, b, fx));
    assert out.entries[i] in out.entries;
  }

  /** Every row of `out` is the row of a reading of `rt` and a station of `st` with the same code. */
  predicate RowsArePairs(out: Table, rt: Table, st: Table, fx: Foreign) {
    forall e :: e in out.entries ==>
      exists a, b :: a in rt.entries && b in st.entries && a.index == Key(At(b, "codice")) && e.cells == Observation(a, b, fx)
  }

  /** `out` has the row of reading `a` at station `b`. */
  predicate HasRowFor(out: Table, a: Entry, b: Entry, fx: Foreign) {
    exists e :: e in out.entries && e.cells == Observation(a, b, fx)
  }

  /** Every reading of `rt` and station of `st` with the same code has its row in `out`. */
  predicate PairsAreRows(out: Table, rt: Table, st: Table, fx: Foreign) {
    forall a, b :: a in rt.entries && b in st.entries && a.index == Key(At(b, "codice")) ==> HasRowFor(out, a, b, fx)
  }

  /** The projection of the join holds only rows of readings paired with their stations. */
  lemma ProjectionRowsArePairs(rt: Table, st: Table, fx: Foreign, values: Table, sites: Table)
    requires Valid(values) && Valid(sites) && ColumnSet(values.columns) !! ColumnSet(sites.columns)
    requires Distinct(OutputColumns) && forall c :: c in OutputColumns ==> c in Join(values, sites).columns
    requires ReadingsOf(values, rt, fx) && StationsOf(sites, st)
    ensures RowsArePairs(Select(ResetIndex(Join(values, sites)), OutputColumns), rt, st, fx)
  {
    forall e | e in Select(ResetIndex(Join(values, sites)), OutputColumns).entries
      ensures exists a, b :: a in rt.entries && b in st.entries && a.index == Key(At(b, "codice")) && e.cells == Observation(a, b, fx)
    {
      ProjectedRowSound(rt, st, fx, values, sites, e);
    }
  }

  /** The projection of the join holds the row of every reading paired with its station. */
  lemma ProjectionPairsAreRows(rt: Table, st: Table, fx: Foreign, values: Table, sites: Table)
    requires Valid(values) && Valid(sites) && ColumnSet(values.columns) !! ColumnSet(sites.columns)
    requires Distinct(OutputColumns) && forall c :: c in OutputColumns ==> c in Join(values, sites).columns
    requires ReadingsOf(values, rt, fx) && StationsOf(sites, st)
    ensures PairsAreRows(Select(ResetIndex(Join(values, sites)), OutputColumns), rt, st, fx)
  {
    var out := Select(ResetIndex(Join(values, sites)), OutputColumns);
    forall a, b | a in rt.entries && b in st.entries && a.index == Key(At(b, "codice"))
      ensures HasRowFor(out, a, b, fx)
    {
      ProjectedRowComplete(rt, st, fx, values, sites, a, b);
    }
  }

  /** The output of `Combine` is exactly the rows of the readings paired with their stations. */
  lemma CombinedPairs(rt: Table, st: Table, fx: Foreign, values: Table, sites: Table)
    requires Valid(values) && Valid(sites) && ReadingsOf(values, rt, fx) && StationsOf(sites, st)
    requires Combine(values, sites).Ok?
    ensures RowsArePairs(Combine(values, sites).value, rt, st, fx)
    ensures PairsAreRows(Combine(values, sites).value, rt, st, fx)
  {
    CombineUnfolds(values, sites);
    ProjectionRowsArePairs(rt, st, fx, values, sites);
    ProjectionPairsAreRows(rt, st, fx, values, sites);
  }

  /** A successful fetch is `Combine` of the converted readings and stations. */
  lemma FetchUnfolds(date: string, rt: Table, st: Table, fx: Foreign, out: Table)
    requires Valid(rt) && RenameIsInjective(rt.columns, ReadingNames)
    requires Valid(st) && RenameIsInjective(st.columns, StationNames)
    requires Fetch(date, Parsed(rt), Parsed(st), fx) == Ok(out)
    ensures Stations(st).Ok? && Combine(Readings(rt, fx), Stations(st).value) == Ok(out)
  {
  }

  /**
   * With the usual columns on both feeds, the output is the inner join of
   * readings and stations on the station code, with nothing dropped: every
   * output row is the row of a reading and a station whose codes are equal,
   * and every such pair has its row in the output.
   */
  lemma FetchPairsReadingsWithStations(date: string, rt: Table, st: Table, fx: Foreign, out: Table)
    requires Valid(rt) && RenameIsInjective(rt.columns, ReadingNames)
    requires Valid(st) && RenameIsInjective(st.columns, StationNames)
    requires "HS" in rt.columns && "HN" in rt.columns && "DataRilievo" in rt.columns
    requires "codice" in st.columns && "nome" in st.columns && "lat" in st.columns && "lon" in st.columns
    requires Fetch(date, Parsed(rt), Parsed(st), fx) == Ok(out)
    ensures RowsArePairs(out, rt, st, fx) && PairsAreRows(out, rt, st, fx)
  {
    FetchUnfolds(date, rt, st, fx, out);
    ReadingsMeet(rt, fx);
    StationsMeet(st);
    CombinedPairs(rt, st, fx, Readings(rt, fx), Stations(st).value);
  }
}
