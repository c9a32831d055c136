/**
 * `SupabaseUploader` (snow_sensors/supabase_uploader.py): the credentials
 * check and request headers of the constructor, and `upload`, which turns the
 * rows of a table into the records of one upsert request. The request itself
 * is modelled by the batch that would be posted and its outcome, an input.
 */
module Uploader {
  import opened Wrappers
  import opened Frames
  import opened Python
  import Text

  const UrlVariable := "SUPABASE_URL"
  const KeyVariable := "SUPABASE_SERVICE_KEY"
  const TablePath := "/rest/v1/snow_sensors"

  /** The row of the `snow_sensors` table built from one reading. */
  datatype Record = Record(
    stationCode: string,
    stationName: string,
    latitude: real,
    longitude: real,
    hs: real,
    measurementDate: string,
    source: string,
    hn: Option<real>,
    elevation: Option<real>)

  /** The POST of one batch: its URL, its headers and the records as its JSON body. */
  datatype Post = Post(url: string, headers: map<string, string>, records: seq<Record>)

  /** What the server does with a POST. */
  datatype PostOutcome =
    | Accepted
    /** `raise_for_status` raised `HTTPError`. */
    | Rejected(detail: string)
    /** The request itself failed (connection error, timeout). */
    | Unreachable(detail: string)

  /** The dictionary `upload` returns: `date` is present only after a successful POST. */
  datatype UploadSummary = UploadSummary(uploaded: nat, source: string, date: Option<string>)

  /** How construction or `upload` ends when it raises. */
  datatype UploadError =
    /** The ValueError of the constructor: no URL or no service key. */
    | MissingCredentials
    /** `float()` of an essential cell raised ValueError or TypeError. */
    | NotANumber(column: string)
    /** The POST failed; the exception is re-raised unchanged. */
    | PostFailed(outcome: PostOutcome)

  /** `arg or os.environ.get(name)`: an empty or absent argument defers to the environment. */
  function Chosen(arg: Option<string>, env: map<string, string>, name: string): (r: Option<string>)
    ensures arg.Some? && arg.value != "" ==> r == arg
    ensures (arg.None? || arg.value == "") && name in env ==> r == Some(env[name])
    ensures (arg.None? || arg.value == "") && name !in env ==> r.None?
  {
    if arg.Some? && arg.value != "" then arg
    else if name in env then Some(env[name])
    else None
  }

  /** The URL and key the constructor keeps; ValueError unless both are non-empty. */
  function Credentials(url: Option<string>, key: Option<string>, env: map<string, string>): (r: Result<(string, string), UploadError>)
    ensures r.Ok? <==>
      && ((url.Some? && url.value != "") || (UrlVariable in env && env[UrlVariable] != ""))
      && ((key.Some? && key.value != "") || (KeyVariable in env && env[KeyVariable] != ""))
    ensures r.Err? ==> r.error == MissingCredentials
    ensures r.Ok? ==> r.value.0 != "" && r.value.1 != ""
    ensures r.Ok? ==> r.value.0 == (if url.Some? && url.value != "" then url.value else env[UrlVariable])
    ensures r.Ok? ==> r.value.1 == (if key.Some? && key.value != "" then key.value else env[KeyVariable])
  {
    var u := Chosen(url, env, UrlVariable);
    var k := Chosen(key, env, KeyVariable);
    if u.None? || u.value == "" || k.None? || k.value == "" then Err(MissingCredentials)
    else Ok((u.value, k.value))
  }

  /** The headers of every request: the key twice (as API key and as bearer token), JSON, upsert. */
  function Headers(key: string): (h: map<string, string>)
    ensures h.Keys == {"apikey", "Authorization", "Content-Type", "Prefer"}
    ensures h["apikey"] == key && h["Authorization"] == "Bearer " + key
    ensures h["Content-Type"] == "application/json" && h["Prefer"] == "resolution=merge-duplicates"
  {
    map[
      "apikey" := key,
      "Authorization" := "Bearer " + key,
      "Content-Type" := "application/json",
      "Prefer" := "resolution=merge-duplicates"]
  }

  /** The bearer token in the Authorization header is the API key. */
  lemma BearerTokenIsKey(key: string)
    ensures |Headers(key)["Authorization"]| == 7 + |key|
    ensures Headers(key)["Authorization"][7..] == Headers(key)["apikey"]
  {
    var h := Headers(key);
    assert h["Authorization"] == "Bearer " + key;
    assert |"Bearer "| == 7;
    assert ("Bearer " + key)[7..] == key;
  }

  /** A row is uploaded only with a depth and both coordinates: `pd.isna(row.get(...))` is false for all three. */
  predicate Essential(e: Entry)
    ensures Essential(e) <==>
      && "hs" in e.cells && !e.cells["hs"].Null?
      && "latitude" in e.cells && !e.cells["latitude"].Null?
      && "longitude" in e.cells && !e.cells["longitude"].Null?
  {
    !IsNa(Get(e, "hs")) && !IsNa(Get(e, "latitude")) && !IsNa(Get(e, "longitude"))
  }

  /** `name_it or name_de or name_en or f'Station_{idx}'`, as a string. */
  function StationName(e: Entry, fx: Foreign): (r: string)
    ensures var names := [Get(e, "name_it"), Get(e, "name_de"), Get(e, "name_en")];
      && (forall k :: 0 <= k < 3 && Truthy(names[k]) && (forall j :: 0 <= j < k ==> !Truthy(names[j])) ==>
            r == Str(names[k].value, fx))
      && ((forall k :: 0 <= k < 3 ==> !Truthy(names[k])) ==> r == "Station_" + LabelText(e.index, fx))
  {
    var names := [Get(e, "name_it"), Get(e, "name_de"), Get(e, "name_en")];
    match FirstTruthy(names)
    case Some(c) => Str(c, fx)
    case None => "Station_" + LabelText(e.index, fx)
  }

  /** `station_code or SCODE or f'{source}_{idx}'`, as a string. */
  function StationCode(e: Entry, source: string, fx: Foreign): (r: string)
    ensures var codes := [Get(e, "station_code"), Get(e, "SCODE")];
      && (forall k :: 0 <= k < 2 && Truthy(codes[k]) && (forall j :: 0 <= j < k ==> !Truthy(codes[j])) ==>
            r == Str(codes[k].value, fx))
      && ((forall k :: 0 <= k < 2 ==> !Truthy(codes[k])) ==> r == source + "_" + LabelText(e.index, fx))
  {
    var codes := [Get(e, "station_code"), Get(e, "SCODE")];
    match FirstTruthy(codes)
    case Some(c) => Str(c, fx)
    case None => source + "_" + LabelText(e.index, fx)
  }

  /** Rows labelled by position that fall back to generated codes get different codes. */
  lemma GeneratedCodesDiffer(source: string, i: nat, j: nat)
    requires i != j
    ensures source + "_" + Text.NatToString(i) != source + "_" + Text.NatToString(j)
  {
    var a, b := Text.NatToString(i), Text.NatToString(j);
    if source + "_" + a == source + "_" + b {
      assert (source + "_" + a)[|source| + 1..] == a;
      assert (source + "_" + b)[|source| + 1..] == b;
      Text.NatToStringInjective(i, j);
    }
  }

  /**
   * On a table without `station_code` and `SCODE` columns whose labels are
   * positions in increasing order, as both fetchers and `retrieve` return,
   * every station code is generated from the row's label, and no two rows
   * share one.
   */
  lemma PositionalCodes(t: Table, source: string, fx: Foreign)
    requires Valid(t) && "station_code" !in t.columns && "SCODE" !in t.columns
    requires Ascending(t.entries)
    ensures forall i :: 0 <= i < |t.entries| ==>
      StationCode(t.entries[i], source, fx) == source + "_" + Text.NatToString(t.entries[i].index.n)
    ensures forall i, j :: 0 <= i < j < |t.entries| ==> StationCode(t.entries[i], source, fx) != StationCode(t.entries[j], source, fx)
  {
    forall i | 0 <= i < |t.entries|
      ensures StationCode(t.entries[i], source, fx) == source + "_" + Text.NatToString(t.entries[i].index.n)
    {
      var e := t.entries[i];
      assert e.cells.Keys == ColumnSet(t.columns);
      assert Get(e, "station_code").None? && Get(e, "SCODE").None?;
    }
    forall i, j | 0 <= i < j < |t.entries|
      ensures StationCode(t.entries[i], source, fx) != StationCode(t.entries[j], source, fx)
    {
      GeneratedCodesDiffer(source, t.entries[i].index.n, t.entries[j].index.n);
    }
  }

  /** An optional number: present when the column exists, its value is not missing and `float()` accepts it. */
  function OptionalNumber(e: Entry, col: string, fx: Foreign): (r: Option<real>)
    ensures r.Some? <==> col in e.cells && !e.cells[col].Null? && ToFloat(e.cells[col], fx).Some?
    ensures r.Some? ==> r == ToFloat(e.cells[col], fx)
  {
    if col in e.cells && !e.cells[col].Null? then ToFloat(e.cells[col], fx) else None
  }

  /**
   * The elevation: from `elevation` when that column has a value, even one
   * `float()` rejects; from `ALT` only when `elevation` is absent or missing.
   */
  function Elevation(e: Entry, fx: Foreign): (r: Option<real>)
    ensures "elevation" in e.cells && !e.cells["elevation"].Null? ==> r == OptionalNumber(e, "elevation", fx)
    ensures !("elevation" in e.cells && !e.cells["elevation"].Null?) ==> r == OptionalNumber(e, "ALT", fx)
    ensures r.Some? ==> OptionalNumber(e, "elevation", fx) == r || OptionalNumber(e, "ALT", fx) == r
  {
    if "elevation" in e.cells && !e.cells["elevation"].Null? then OptionalNumber(e, "elevation", fx)
    else OptionalNumber(e, "ALT", fx)
  }

  /**
   * The body of the loop for one row: None for a row that is skipped, the
   * record otherwise, or the error of the first essential cell (latitude,
   * longitude, depth, in the order the record is built) that is not a number.
   */
  function RecordFor(e: Entry, source: string, date: string, fx: Foreign): (r: Result<Option<Record>, UploadError>)
    ensures !Essential(e) ==> r == Ok(None)
    ensures Essential(e) ==> (r.Ok? <==>
      ToFloat(At(e, "latitude"), fx).Some? && ToFloat(At(e, "longitude"), fx).Some? && ToFloat(At(e, "hs"), fx).Some?)
    ensures r.Err? ==> r.error.NotANumber? && r.error.column in {"latitude", "longitude", "hs"}
    ensures r.Ok? && Essential(e) ==> r.value.Some?
    ensures r.Ok? && Essential(e) ==>
      var rec := r.value.value;
      && rec.source == source && rec.measurementDate == date
      && rec.stationName == StationName(e, fx) && rec.stationCode == StationCode(e, source, fx)
      && Some(rec.latitude) == ToFloat(At(e, "latitude"), fx)
      && Some(rec.longitude) == ToFloat(At(e, "longitude"), fx)
      && Some(rec.hs) == ToFloat(At(e, "hs"), fx)
      && rec.hn == OptionalNumber(e, "hn", fx) && rec.elevation == Elevation(e, fx)
  {
    if !Essential(e) then Ok(None)
    else
      var name := StationName(e, fx);
      var code := StationCode(e, source, fx);
      match ToFloat(At(e, "latitude"), fx)
      case None => Err(NotANumber("latitude"))
      case Some(lat) =>
        match ToFloat(At(e, "longitude"), fx)
        case None => Err(NotANumber("longitude"))
        case Some(lon) =>
          match ToFloat(At(e, "hs"), fx)
          case None => Err(NotANumber("hs"))
          case Some(hs) =>
            Ok(Some(Record(code, name, lat, lon, hs, date, source, OptionalNumber(e, "hn", fx), Elevation(e, fx))))
  }

  /** The rows that pass the essential-data check, in table order. */
  function Kept(es: seq<Entry>): (r: seq<Entry>)
    ensures |r| <= |es|
    ensures forall x :: x in r <==> x in es && Essential(x)
  {
    if es == [] then []
    else
      var init := Kept(es[..|es| - 1]);
      var last := es[|es| - 1];
      assert forall x :: x in es <==> x in es[..|es| - 1] || x == last by {
        assert es == es[..|es| - 1] + [last];
      }
      init + (if Essential(last) then [last] else [])
  }

  /** The records of a run of rows: those of the first rows, then that of the last; the first error wins. */
  function RecordsOf(es: seq<Entry>, source: string, date: string, fx: Foreign): (r: Result<seq<Record>, UploadError>)
    ensures r.Ok? ==> |r.value| <= |es|
    ensures r.Err? ==> r.error.NotANumber? && r.error.column in {"latitude", "longitude", "hs"}
  {
    if es == [] then Ok([])
    else
      var init :- RecordsOf(es[..|es| - 1], source, date, fx);
      var last :- RecordFor(es[|es| - 1], source, date, fx);
      Ok(init + (if last.Some? then [last.value] else []))
  }

  /** Once a row has failed, the rows after it change nothing. */
  lemma {:induction false} ErrorPersists(es: seq<Entry>, more: seq<Entry>, source: string, date: string, fx: Foreign)
    requires RecordsOf(es, source, date, fx).Err?
    ensures RecordsOf(es + more, source, date, fx) == RecordsOf(es, source, date, fx)
    decreases |more|
  {
    if more != [] {
      var init := es + more[..|more| - 1];
      assert (es + more)[..|es + more| - 1] == init;
      ErrorPersists(es, more[..|more| - 1], source, date, fx);
      assert RecordsOf(init, source, date, fx).Err?;
    } else {
      assert es + more == es;
    }
  }

  /** One more row: the records so far, then that row's record, if it has one. */
  lemma RecordsStep(es: seq<Entry>, i: nat, records: seq<Record>, source: string, date: string, fx: Foreign)
    requires i < |es| && RecordsOf(es[..i], source, date, fx) == Ok(records)
    requires RecordFor(es[i], source, date, fx).Ok?
    ensures RecordsOf(es[..i + 1], source, date, fx) ==
      Ok(records + (if RecordFor(es[i], source, date, fx).value.Some? then [RecordFor(es[i], source, date, fx).value.value] else []))
  {
    assert es[..i + 1][..i] == es[..i] && es[..i + 1][i] == es[i];
  }

  /** A row whose record fails ends the walk with that error, whatever follows it. */
  lemma RecordsStopAt(es: seq<Entry>, i: nat, records: seq<Record>, source: string, date: string, fx: Foreign)
    requires i < |es| && RecordsOf(es[..i], source, date, fx) == Ok(records)
    requires RecordFor(es[i], source, date, fx).Err?
    ensures RecordsOf(es, source, date, fx) == Err(RecordFor(es[i], source, date, fx).error)
  {
    assert es[..i + 1][..i] == es[..i] && es[..i + 1][i] == es[i];
    ErrorPersists(es[..i + 1], es[i + 1..], source, date, fx);
    assert es[..i + 1] + es[i + 1..] == es;
  }

  /**
   * The records follow the kept rows one to one and in order: there are as
   * many records as rows with a depth and both coordinates, and record `k` is
   * the record of the `k`-th such row.
   */
  lemma {:induction false} RecordsFollowRows(es: seq<Entry>, source: string, date: string, fx: Foreign)
    requires RecordsOf(es, source, date, fx).Ok?
    ensures |RecordsOf(es, source, date, fx).value| == |Kept(es)|
    ensures forall k :: 0 <= k < |Kept(es)| ==>
      RecordFor(Kept(es)[k], source, date, fx) == Ok(Some(RecordsOf(es, source, date, fx).value[k]))
  {
    if es != [] {
      var init := es[..|es| - 1];
      var last := es[|es| - 1];
      RecordsFollowRows(init, source, date, fx);
      var prev := RecordsOf(init, source, date, fx).value;
      var recs := RecordsOf(es, source, date, fx).value;
      forall k | 0 <= k < |Kept(es)|
        ensures RecordFor(Kept(es)[k], source, date, fx) == Ok(Some(recs[k]))
      {
        if k < |Kept(init)| {
          assert Kept(es)[k] == Kept(init)[k] && recs[k] == prev[k];
        } else {
          assert Kept(es)[k] == last;
        }
      }
    }
  }

  /**
   * What every upload promises of its batch: no more records than rows, each
   * from a row with a depth and both coordinates, each carrying the source
   * and the measurement date it was given.
   */
  lemma RecordsAreTagged(es: seq<Entry>, source: string, date: string, fx: Foreign)
    requires RecordsOf(es, source, date, fx).Ok?
    ensures |RecordsOf(es, source, date, fx).value| <= |es|
    ensures forall rec :: rec in RecordsOf(es, source, date, fx).value ==>
      rec.source == source && rec.measurementDate == date &&
      exists e :: e in es && Essential(e) && RecordFor(e, source, date, fx) == Ok(Some(rec))
  {
    RecordsFollowRows(es, source, date, fx);
    var recs := RecordsOf(es, source, date, fx).value;
    var kept := Kept(es);
    forall rec | rec in recs
      ensures rec.source == source && rec.measurementDate == date
      ensures exists e :: e in es && Essential(e) && RecordFor(e, source, date, fx) == Ok(Some(rec))
    {
      var k :| 0 <= k < |recs| && recs[k] == rec;
      assert kept[k] in kept;
      assert kept[k] in es && Essential(kept[k]);
    }
  }

  /**
   * `upload` fails on its rows exactly when some row's record fails, and
   * then with the error of the first such row.
   */
  lemma {:induction false} RecordsFailAtFirstBadRow(es: seq<Entry>, source: string, date: string, fx: Foreign)
    ensures RecordsOf(es, source, date, fx).Err? <==> exists i :: 0 <= i < |es| && RecordFor(es[i], source, date, fx).Err?
    ensures RecordsOf(es, source, date, fx).Err? ==>
      exists i :: 0 <= i < |es| && RecordFor(es[i], source, date, fx).Err? &&
        RecordsOf(es, source, date, fx).error == RecordFor(es[i], source, date, fx).error &&
        forall j :: 0 <= j < i ==> RecordFor(es[j], source, date, fx).Ok?
  {
    if es != [] {
      var init := es[..|es| - 1];
      RecordsFailAtFirstBadRow(init, source, date, fx);
      assert forall i :: 0 <= i < |init| ==> init[i] == es[i];
    }
  }

  /**
   * The loop of `upload`: the rows in order, skipping those without a depth or
   * a coordinate, appending the record of each other row, and stopping at the
   * first essential value `float()` rejects.
   */
  method CollectRecords(rows: seq<Entry>, source: string, date: string, fx: Foreign)
    returns (r: Result<seq<Record>, UploadError>)
    ensures r == RecordsOf(rows, source, date, fx)
  {
    var records: seq<Record> := [];
    var i := 0;
    while i < |rows|
      invariant 0 <= i <= |rows|
      invariant RecordsOf(rows[..i], source, date, fx) == Ok(records)
    {
      var e := rows[i];
      if IsNa(Get(e, "hs")) || IsNa(Get(e, "latitude")) || IsNa(Get(e, "longitude")) {
        RecordsStep(rows, i, records, source, date, fx);
        assert records + [] == records;
        i := i + 1;
        continue;
      }
      var name := StationName(e, fx);
      var code := StationCode(e, source, fx);
      var lat := ToFloat(At(e, "latitude"), fx);
      if lat.None? {
        RecordsStopAt(rows, i, records, source, date, fx);
        return Err(NotANumber("latitude"));
      }
      var lon := ToFloat(At(e, "longitude"), fx);
      if lon.None? {
        RecordsStopAt(rows, i, records, source, date, fx);
        return Err(NotANumber("longitude"));
      }
      var hs := ToFloat(At(e, "hs"), fx);
      if hs.None? {
        RecordsStopAt(rows, i, records, source, date, fx);
        return Err(NotANumber("hs"));
      }
      var record := Record(code, name, lat.value, lon.value, hs.value, date, source, None, None);
      if "hn" in e.cells && !e.cells["hn"].Null? {
        record := record.(hn := ToFloat(e.cells["hn"], fx));
      }
      if "elevation" in e.cells && !e.cells["elevation"].Null? {
        record := record.(elevation := ToFloat(e.cells["elevation"], fx));
      } else if "ALT" in e.cells && !e.cells["ALT"].Null? {
        record := record.(elevation := ToFloat(e.cells["ALT"], fx));
      }
      assert RecordFor(e, source, date, fx) == Ok(Some(record));
      RecordsStep(rows, i, records, source, date, fx);
      records := records + [record];
      i := i + 1;
    }
    assert rows[..i] == rows;
    return Ok(records);
  }

  /** `SupabaseUploader`: the project URL, the service key and the headers built from it. */
  class SupabaseUploader {
    var url: string
    var key: string
    var headers: map<string, string>

    predicate Valid()
      reads this
    {
      url != "" && key != "" && headers == Headers(key)
    }

    /** The fields once the credentials check has passed. */
    constructor (url: string, key: string)
      requires url != "" && key != ""
      ensures Valid() && this.url == url && this.key == key
    {
      this.url := url;
      this.key := key;
      this.headers := Headers(key);
    }

    /** `SupabaseUploader(url, key)` with the process environment `env`: ValueError unless a URL and a key are found. */
    static method Create(url: Option<string>, key: Option<string>, env: map<string, string>)
      returns (r: Result<SupabaseUploader, UploadError>)
      ensures r.Err? <==> Credentials(url, key, env).Err?
      ensures r.Err? ==> r.error == MissingCredentials
      ensures r.Ok? ==> fresh(r.value) && r.value.Valid()
      ensures r.Ok? ==> r.value.url == Credentials(url, key, env).value.0 && r.value.key == Credentials(url, key, env).value.1
    {
      match Credentials(url, key, env)
      case Err(e) => r := Err(e);
      case Ok(creds) =>
        var u := new SupabaseUploader(creds.0, creds.1);
        r := Ok(u);
    }

    /**
     * `upload(df, source, measurement_date)`: an empty table returns at once;
     * otherwise the rows are walked in order, rows without a depth or a
     * coordinate are skipped, and the records built from the others are
     * posted in one batch, unless there are none. `batch` is the POST sent, if
     * any; `outcome` is what the server makes of it.
     */
    method Upload(df: Table, source: string, measurementDate: string, outcome: PostOutcome, fx: Foreign)
      returns (r: Result<UploadSummary, UploadError>, batch: Option<Post>)
      requires Valid()
      ensures Empty(df) ==> r == Ok(UploadSummary(0, source, None)) && batch.None?
      ensures !Empty(df) && RecordsOf(df.entries, source, measurementDate, fx).Err? ==>
        r == Err(RecordsOf(df.entries, source, measurementDate, fx).error) && batch.None?
      ensures !Empty(df) && RecordsOf(df.entries, source, measurementDate, fx) == Ok([]) ==>
        r == Ok(UploadSummary(0, source, None)) && batch.None?
      ensures batch.Some? <==>
        !Empty(df) && RecordsOf(df.entries, source, measurementDate, fx).Ok? &&
        RecordsOf(df.entries, source, measurementDate, fx).value != []
      ensures batch.Some? ==>
        batch.value == Post(url + TablePath, headers, RecordsOf(df.entries, source, measurementDate, fx).value)
      ensures batch.Some? && outcome.Accepted? ==>
        r == Ok(UploadSummary(|batch.value.records|, source, Some(measurementDate)))
      ensures batch.Some? && !outcome.Accepted? ==> r == Err(PostFailed(outcome))
    {
      if Empty(df) {
        return Ok(UploadSummary(0, source, None)), None;
      }
      var collected := CollectRecords(df.entries, source, measurementDate, fx);
      if collected.Err? {
        return Err(collected.error), None;
      }
      var records := collected.value;
      if records == [] {
        return Ok(UploadSummary(0, source, None)), None;
      }
      batch := Some(Post(url + TablePath, headers, records));
      match outcome
      case Accepted => r := Ok(UploadSummary(|records|, source, Some(measurementDate)));
      case _ => r := Err(PostFailed(outcome));
    }
  }

  /**
   * `upload_to_supabase(df, source, measurement_date)`: an uploader built from
   * the environment alone, then its `upload`.
   */
  method UploadToSupabase(df: Table, source: string, measurementDate: string, env: map<string, string>, outcome: PostOutcome, fx: Foreign)
    returns (r: Result<UploadSummary, UploadError>, batch: Option<Post>)
    ensures Credentials(None, None, env).Err? ==> r == Err(MissingCredentials) && batch.None?
    ensures batch.Some? <==>
      && Credentials(None, None, env).Ok? && !Empty(df)
      && RecordsOf(df.entries, source, measurementDate, fx).Ok? && RecordsOf(df.entries, source, measurementDate, fx).value != []
    ensures batch.Some? ==>
      && batch.value.url == env[UrlVariable] + TablePath
      && batch.value.headers == Headers(env[KeyVariable])
      && batch.value.records == RecordsOf(df.entries, source, measurementDate, fx).value
    ensures batch.Some? ==> r == (if outcome.Accepted? then Ok(UploadSummary(|batch.value.records|, source, Some(measurementDate))) else Err(PostFailed(outcome)))
  {
    var made := SupabaseUploader.Create(None, None, env);
    if made.Err? {
      return Err(made.error), None;
    }
    r, batch := made.value.Upload(df, source, measurementDate, outcome, fx);
  }

  /** `df.empty`: a table without rows or without columns. */
  predicate Empty(t: Table)
    ensures Empty(t) <==> |t.entries| * |t.columns| == 0
  {
    |t.entries| == 0 || |t.columns| == 0
  }
}
