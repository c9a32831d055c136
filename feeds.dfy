/**
 * What the two fetchers share: the requests they would send, the outcome of
 * a request together with the parsing of its body, the error kinds a fetch
 * can end in, and the lenient date conversion `parse_date_safe`, which each
 * fetcher defines identically.
 */
module Feeds {
  import opened Wrappers
  import opened Frames
  import opened Python

  /** A GET request: its URL and query parameters. */
  datatype Request = Request(url: string, params: map<string, string>)

  /**
   * The outcome of one GET together with the reading of its body into a table
   * (`read_csv` with its `index_col`, or `read_xml`).
   */
  datatype Response =
    /** The table read from the body, labelled by its index column where the reader sets one. */
    | Parsed(table: Table)
    /** A connection error, a timeout or an HTTP error status from `raise_for_status`. */
    | TransportFailure(detail: string)
    /** The reader raised `pd.errors.ParserError` (a malformed CSV body, or `read_xml`'s own ParserError). */
    | ParserFailure(detail: string)
    /**
     * The reader raised anything else: `EmptyDataError` for an empty body, the
     * ValueError for an index column the body lacks, an XML syntax error.
     */
    | ReaderFailure(detail: string)

  /** How a fetch ends when it does not return a table. */
  datatype FetchError =
    /** `requests.RequestException`, re-raised with a prefixed message. */
    | RequestFailed(message: string)
    /** `pd.errors.ParserError` from a reader, re-raised with a prefixed message. */
    | CsvParseFailed(message: string)
    /** Any other error of a reader; no except clause catches it. */
    | ReaderFailed(detail: string)
    /** `KeyError` for columns a step needs; no except clause catches it. */
    | MissingColumns(columns: seq<string>)
    /** `IndexError` from a date with fewer than three dash-separated parts; not caught. */
    | IndexOutOfRange
    /** `ValueError` from a join whose two sides share column labels; not caught. */
    | ColumnsOverlap(columns: seq<string>)

  const FetchFailurePrefix := "Failed to fetch data from API: "
  const CsvFailurePrefix := "Failed to parse CSV data: "

  /**
   * A feed as the fetchers' except clauses see it: its table; a transport
   * failure re-raised with the fetch prefix; a pandas ParserError re-raised
   * with the CSV prefix, whichever reader raised it; any other reader error
   * passed through unchanged.
   */
  function Feed(resp: Response): (r: Result<Table, FetchError>)
    ensures r.Ok? <==> resp.Parsed?
    ensures resp.Parsed? ==> r.value == resp.table
    ensures resp.TransportFailure? ==> r.error == RequestFailed(FetchFailurePrefix + resp.detail)
    ensures resp.ParserFailure? ==> r.error == CsvParseFailed(CsvFailurePrefix + resp.detail)
    ensures resp.ReaderFailure? ==> r.error == ReaderFailed(resp.detail)
  {
    match resp
    case Parsed(t) => Ok(t)
    case TransportFailure(d) => Err(RequestFailed(FetchFailurePrefix + d))
    case ParserFailure(d) => Err(CsvParseFailed(CsvFailurePrefix + d))
    case ReaderFailure(d) => Err(ReaderFailed(d))
  }

  /**
   * `parse_date_safe`: a string the parser accepts becomes a timestamp with its
   * timezone removed and its wall-clock fields kept; anything else (a string
   * the parser rejects, a number, a missing value) becomes NaT.
   */
  function ParseDateSafe(c: Cell, fx: Foreign): (r: Cell)
    ensures r.Null? || (r.Stamp? && r.t.tz.None?)
    ensures r.Stamp? <==> c.Text? && fx.parseDate(c.s).Some?
    ensures r.Stamp? ==> r.t == fx.parseDate(c.s).value.(tz := None)
  {
    if c.Text? then
      match fx.parseDate(c.s)
      case Some(d) => Stamp(d.(tz := None))
      case None => Null
    else Null
  }

  /** `df['date'] = df['date'].apply(parse_date_safe)` */
  function ParseDates(t: Table, fx: Foreign): (r: Table)
    requires Valid(t) && "date" in t.columns
    ensures Valid(r) && r.columns == t.columns && |r.entries| == |t.entries|
    ensures forall i :: 0 <= i < |t.entries| ==> r.entries[i].index == t.entries[i].index
    ensures forall i :: 0 <= i < |t.entries| ==>
      r.entries[i].cells == t.entries[i].cells["date" := ParseDateSafe(t.entries[i].cells["date"], fx)]
  {
    Apply(t, "date", c => ParseDateSafe(c, fx))
  }
}
