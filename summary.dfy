/**
 * The summary of a fetched table that example.py prints: `get_data_summary`
 * (record count, distinct sensors, date range, depth range) and the count of
 * positive, zero and negative snow depths in `main`.
 */
module Summary {
  import opened Wrappers
  import opened Frames
  import opened Python
  import AltoAdige
  import Trentino
  import Retriever

  datatype DateRange = DateRange(start: DateTime, end: DateTime)

  datatype ValueStats = ValueStats(min: real, max: real)

  /**
   * The dictionary `get_data_summary` returns; `uniqueSensors` is None when
   * the key is absent, the two ranges None when their key holds None.
   */
  datatype DataSummary = DataSummary(
    totalRecords: nat,
    uniqueSensors: Option<nat>,
    dateRange: Option<DateRange>,
    valueStats: Option<ValueStats>)

  /** The values of one column, in row order; missing where a row lacks the column. */
  function Column(t: Table, col: string): (r: seq<Cell>)
    ensures |r| == |t.entries|
    ensures forall i :: 0 <= i < |r| ==> r[i] == At(t.entries[i], col)
  {
    seq(|t.entries|, i requires 0 <= i < |t.entries| => At(t.entries[i], col))
  }

  /** The distinct values of a column, missing values left out. */
  function Present(cs: seq<Cell>): (r: set<Cell>)
    ensures forall c :: c in r <==> c in cs && !c.Null?
  {
    set c | c in cs && !c.Null?
  }

  /** `Series.nunique()`: the number of distinct values, missing values not counted. */
  function NUnique(cs: seq<Cell>): (r: nat)
    ensures r <= |cs|
    ensures r > 0 <==> exists i :: 0 <= i < |cs| && !cs[i].Null?
  {
    PresentBounds(cs);
    |Present(cs)|
  }

  /** Appending a cell adds at most that cell to the distinct values. */
  lemma PresentAppend(cs: seq<Cell>, c: Cell)
    ensures Present(cs + [c]) <= Present(cs) + {c}
    ensures Present(cs) <= Present(cs + [c])
  {
    forall d | d in Present(cs + [c])
      ensures d in Present(cs) + {c}
    {
      assert d in cs + [c];
    }
    forall d | d in Present(cs)
      ensures d in Present(cs + [c])
    {
      assert d in cs + [c];
    }
  }

  /**
   * There are never more distinct values than values, and there is at least
   * one exactly when some value is not missing.
   */
  lemma {:induction false} PresentBounds(cs: seq<Cell>)
    ensures |Present(cs)| <= |cs|
    ensures |Present(cs)| > 0 <==> exists i :: 0 <= i < |cs| && !cs[i].Null?
  {
    if cs == [] {
      assert Present(cs) == {};
    } else {
      var init, last := cs[..|cs| - 1], cs[|cs| - 1];
      assert cs == init + [last];
      PresentBounds(init);
      PresentAppend(init, last);
      if last.Null? {
        assert Present(cs) == Present(init);
      } else {
        assert Present(cs) == Present(init) + {last};
      }
      if exists i :: 0 <= i < |cs| && !cs[i].Null? {
        var i :| 0 <= i < |cs| && !cs[i].Null?;
        assert cs[i] in Present(cs);
      }
    }
  }

  /**
   * The distinct sensor count: `SCODE` plus `codStaz`, each where the table
   * has it. It is never more than two per row, and positive exactly when one
   * of the two code columns holds a value.
   */
  function SensorCount(t: Table): (r: nat)
    ensures r <= 2 * |t.entries|
    ensures r > 0 <==>
      exists i :: 0 <= i < |t.entries| &&
        (("SCODE" in t.columns && !At(t.entries[i], "SCODE").Null?) ||
         ("codStaz" in t.columns && !At(t.entries[i], "codStaz").Null?))
  {
    (if "SCODE" in t.columns then NUnique(Column(t, "SCODE")) else 0) +
    (if "codStaz" in t.columns then NUnique(Column(t, "codStaz")) else 0)
  }

  /**
   * The table `retrieve` returns has neither code column, since both fetchers
   * drop their station index: its summary never reports distinct sensors.
   */
  lemma RetrievedTableCountsNoSensors(df1: Table, df2: Table)
    requires Valid(df1) && Valid(df2)
    requires df1.columns == AltoAdige.OutputColumns && df2.columns == Trentino.OutputColumns
    ensures SensorCount(Retriever.Aggregate(df1, df2)) == 0
  {
    FetchedLabelsAreNotCodes();
    AggregateLacks(df1, df2, "SCODE");
    AggregateLacks(df1, df2, "codStaz");
  }

  /** A column neither provider table has is not in their aggregate. */
  lemma AggregateLacks(df1: Table, df2: Table, c: string)
    requires Valid(df1) && Valid(df2) && c !in df1.columns && c !in df2.columns
    ensures c !in Retriever.Aggregate(df1, df2).columns
  {
    assert c !in ColumnSet(df1.columns) + ColumnSet(df2.columns);
  }

  /** No output column of either fetcher is `SCODE` or `codStaz`. */
  lemma FetchedLabelsAreNotCodes()
    ensures "SCODE" !in AltoAdige.OutputColumns && "codStaz" !in AltoAdige.OutputColumns
    ensures "SCODE" !in Trentino.OutputColumns && "codStaz" !in Trentino.OutputColumns
  {
    var a, t := AltoAdige.OutputColumns, Trentino.OutputColumns;
    assert |a[0]| == 4 && |a[1]| == 2 && |a[2]| == 7 && |a[3]| == 7 && |a[4]| == 7 && |a[5]| == 9 && |a[6]| == 8;
    assert a[2][0] == 'n' && a[3][0] == 'n' && a[4][0] == 'n';
    assert |t[0]| == 4 && |t[1]| == 2 && |t[2]| == 2 && |t[3]| == 7 && |t[4]| == 7 && |t[5]| == 7 && |t[6]| == 9 && |t[7]| == 8;
    assert t[3][0] == 'n' && t[4][0] == 'n' && t[5][0] == 'n';
  }

  /** The timestamps of a column in row order, missing values left out. */
  function Stamps(cs: seq<Cell>): (r: seq<DateTime>)
    ensures forall d :: d in r ==> Stamp(d) in cs
    ensures forall i :: 0 <= i < |cs| && cs[i].Stamp? ==> cs[i].t in r
  {
    if cs == [] then []
    else
      var init := Stamps(cs[..|cs| - 1]);
      var last := cs[|cs| - 1];
      assert forall c :: c in cs[..|cs| - 1] ==> c in cs;
      assert forall i :: 0 <= i < |cs| - 1 ==> cs[i] == cs[..|cs| - 1][i];
      init + (if last.Stamp? then [last.t] else [])
  }

  lemma NotAfterTotal(a: DateTime, b: DateTime)
    ensures NotAfter(a, b) || NotAfter(b, a)
  {
  }

  lemma NotAfterTransitive(a: DateTime, b: DateTime, c: DateTime)
    requires NotAfter(a, b) && NotAfter(b, c)
    ensures NotAfter(a, c)
  {
  }

  /** `min()` of timestamps: one of them, and not after any. */
  function Earliest(ds: seq<DateTime>): (r: DateTime)
    requires |ds| > 0
    ensures r in ds && forall d :: d in ds ==> NotAfter(r, d)
  {
    if |ds| == 1 then ds[0]
    else
      var m := Earliest(ds[1..]);
      assert forall d :: d in ds ==> d == ds[0] || d in ds[1..];
      if NotAfter(ds[0], m) then
        assert forall d :: d in ds[1..] ==> NotAfter(ds[0], d) by {
          forall d | d in ds[1..] { NotAfterTransitive(ds[0], m, d); }
        }
        ds[0]
      else
        NotAfterTotal(ds[0], m);
        m
  }

  /** `max()` of timestamps: one of them, and not before any. */
  function Latest(ds: seq<DateTime>): (r: DateTime)
    requires |ds| > 0
    ensures r in ds && forall d :: d in ds ==> NotAfter(d, r)
  {
    if |ds| == 1 then ds[0]
    else
      var m := Latest(ds[1..]);
      assert forall d :: d in ds ==> d == ds[0] || d in ds[1..];
      if NotAfter(m, ds[0]) then
        assert forall d :: d in ds[1..] ==> NotAfter(d, ds[0]) by {
          forall d | d in ds[1..] { NotAfterTransitive(d, m, ds[0]); }
        }
        ds[0]
      else
        NotAfterTotal(ds[0], m);
        m
  }

  /**
   * `pd.to_numeric(value, errors='coerce')`: a number stays, a string becomes
   * the number it spells or NaN, anything else NaN; None stands for NaN.
   */
  function Coerce(c: Cell, fx: Foreign): (r: Option<real>)
    ensures c.Num? ==> r == Some(c.x)
    ensures r.Some? <==> c.Num? || (c.Text? && fx.toNumeric(c.s).Some?)
    ensures c.Text? ==> r == fx.toNumeric(c.s)
  {
    match c
    case Num(x) => Some(x)
    case Text(s) => fx.toNumeric(s)
    case _ => None
  }

  /** `pd.to_numeric(column, errors='coerce').dropna()`: the coerced values, in row order. */
  function Numbers(cs: seq<Cell>, fx: Foreign): (r: seq<real>)
    ensures forall x :: x in r ==> exists i :: 0 <= i < |cs| && Coerce(cs[i], fx) == Some(x)
    ensures forall i :: 0 <= i < |cs| && Coerce(cs[i], fx).Some? ==> Coerce(cs[i], fx).value in r
  {
    if cs == [] then []
    else
      var init := Numbers(cs[..|cs| - 1], fx);
      var last := Coerce(cs[|cs| - 1], fx);
      assert forall i :: 0 <= i < |cs| - 1 ==> cs[i] == cs[..|cs| - 1][i];
      init + (if last.Some? then [last.value] else [])
  }

  /** `min()` of numbers: one of them, and no greater than any. */
  function Least(xs: seq<real>): (r: real)
    requires |xs| > 0
    ensures r in xs && forall x :: x in xs ==> r <= x
  {
    if |xs| == 1 then xs[0]
    else
      var m := Least(xs[1..]);
      assert forall x :: x in xs ==> x == xs[0] || x in xs[1..];
      if xs[0] <= m then xs[0] else m
  }

  /** `max()` of numbers: one of them, and no less than any. */
  function Greatest(xs: seq<real>): (r: real)
    requires |xs| > 0
    ensures r in xs && forall x :: x in xs ==> x <= r
  {
    if |xs| == 1 then xs[0]
    else
      var m := Greatest(xs[1..]);
      assert forall x :: x in xs ==> x == xs[0] || x in xs[1..];
      if m <= xs[0] then xs[0] else m
  }

  /** Every non-missing value of the `date` column is a timestamp, as `parse_date_safe` leaves it. */
  predicate DatesParsed(t: Table) {
    forall i :: 0 <= i < |t.entries| ==> At(t.entries[i], "date").Null? || At(t.entries[i], "date").Stamp?
  }

  /** `Series.isna().all()` */
  predicate AllMissing(cs: seq<Cell>) {
    forall i :: 0 <= i < |cs| ==> cs[i].Null?
  }

  /** Some row has a date. */
  predicate DateKnown(t: Table) {
    exists i :: 0 <= i < |t.entries| && !At(t.entries[i], "date").Null?
  }

  /** Some row has a depth that coerces to a number. */
  predicate DepthNumeric(t: Table, fx: Foreign) {
    exists i :: 0 <= i < |t.entries| && Coerce(At(t.entries[i], "hs"), fx).Some?
  }

  /** `start` and `end` are dates of the table, and every date lies between them. */
  predicate BoundsDates(t: Table, r: DateRange) {
    && NotAfter(r.start, r.end)
    && (exists i :: 0 <= i < |t.entries| && At(t.entries[i], "date") == Stamp(r.start))
    && (exists i :: 0 <= i < |t.entries| && At(t.entries[i], "date") == Stamp(r.end))
    && forall i :: 0 <= i < |t.entries| && At(t.entries[i], "date").Stamp? ==>
         NotAfter(r.start, At(t.entries[i], "date").t) && NotAfter(At(t.entries[i], "date").t, r.end)
  }

  /** `min` and `max` are numeric depths of the table, and every numeric depth lies between them. */
  predicate BoundsDepths(t: Table, fx: Foreign, v: ValueStats) {
    && v.min <= v.max
    && (exists i :: 0 <= i < |t.entries| && Coerce(At(t.entries[i], "hs"), fx) == Some(v.min))
    && (exists i :: 0 <= i < |t.entries| && Coerce(At(t.entries[i], "hs"), fx) == Some(v.max))
    && forall i :: 0 <= i < |t.entries| && Coerce(At(t.entries[i], "hs"), fx).Some? ==>
         v.min <= Coerce(At(t.entries[i], "hs"), fx).value <= v.max
  }

  /** The earliest and latest known dates bound the `date` column; there are some exactly when a date is known. */
  lemma DateRangeOf(t: Table)
    requires DatesParsed(t)
    ensures AllMissing(Column(t, "date")) <==> !DateKnown(t)
    ensures |Stamps(Column(t, "date"))| > 0 <==> DateKnown(t)
    ensures |Stamps(Column(t, "date"))| > 0 ==>
      BoundsDates(t, DateRange(Earliest(Stamps(Column(t, "date"))), Latest(Stamps(Column(t, "date")))))
  {
    var dates := Column(t, "date");
    var known := Stamps(dates);
    if exists i :: 0 <= i < |t.entries| && !At(t.entries[i], "date").Null? {
      var i :| 0 <= i < |t.entries| && !At(t.entries[i], "date").Null?;
      assert dates[i].t in known;
    }
    if |known| > 0 {
      var start, end := Earliest(known), Latest(known);
      assert start in known && end in known;
      assert Stamp(start) in dates && Stamp(end) in dates;
      NotAfterTransitive(start, known[0], end);
      forall i | 0 <= i < |t.entries| && At(t.entries[i], "date").Stamp?
        ensures NotAfter(start, At(t.entries[i], "date").t) && NotAfter(At(t.entries[i], "date").t, end)
      {
        assert dates[i].t in known;
      }
    } else {
      forall i | 0 <= i < |t.entries|
        ensures At(t.entries[i], "date").Null?
      {
        if dates[i].Stamp? {
          assert dates[i].t in known;
        }
      }
    }
  }

  /** The least and greatest numeric depths bound the `hs` column; there are some exactly when a depth is numeric. */
  lemma ValueStatsOf(t: Table, fx: Foreign)
    ensures |Numbers(Column(t, "hs"), fx)| > 0 <==> DepthNumeric(t, fx)
    ensures |Numbers(Column(t, "hs"), fx)| > 0 ==>
      BoundsDepths(t, fx, ValueStats(Least(Numbers(Column(t, "hs"), fx)), Greatest(Numbers(Column(t, "hs"), fx))))
  {
    var depths := Column(t, "hs");
    var numbers := Numbers(depths, fx);
    if exists i :: 0 <= i < |t.entries| && Coerce(At(t.entries[i], "hs"), fx).Some? {
      var i :| 0 <= i < |t.entries| && Coerce(At(t.entries[i], "hs"), fx).Some?;
      assert Coerce(depths[i], fx).value in numbers;
    }
    if |numbers| > 0 {
      var lo, hi := Least(numbers), Greatest(numbers);
      assert lo in numbers && hi in numbers;
      forall i | 0 <= i < |t.entries| && Coerce(At(t.entries[i], "hs"), fx).Some?
        ensures lo <= Coerce(At(t.entries[i], "hs"), fx).value <= hi
      {
        assert Coerce(depths[i], fx).value in numbers;
      }
    }
  }

  /**
   * `get_data_summary(df)`: the record count always; the distinct sensor
   * count only when it is positive; the earliest and latest date unless no
   * date is known; the smallest and largest depth unless none is numeric.
   */
  method GetDataSummary(df: Table, fx: Foreign) returns (s: DataSummary)
    requires DatesParsed(df)
    ensures s.totalRecords == |df.entries|
    ensures s.uniqueSensors.Some? <==> |df.entries| > 0 && SensorCount(df) > 0
    ensures s.uniqueSensors.Some? ==> s.uniqueSensors.value == SensorCount(df)
    ensures s.dateRange.Some? <==> "date" in df.columns && DateKnown(df)
    ensures s.dateRange.Some? ==> BoundsDates(df, s.dateRange.value)
    ensures s.valueStats.Some? <==> "hs" in df.columns && DepthNumeric(df, fx)
    ensures s.valueStats.Some? ==> BoundsDepths(df, fx, s.valueStats.value)
  {
    s := DataSummary(|df.entries|, None, None, None);

    if |df.entries| > 0 {
      var uniqueSensors := 0;
      if "SCODE" in df.columns {
        uniqueSensors := uniqueSensors + NUnique(Column(df, "SCODE"));
      }
      if "codStaz" in df.columns {
        uniqueSensors := uniqueSensors + NUnique(Column(df, "codStaz"));
      }
      if uniqueSensors > 0 {
        s := s.(uniqueSensors := Some(uniqueSensors));
      }
    }
    assert s.uniqueSensors.Some? ==> s.uniqueSensors.value == SensorCount(df);
    assert s.uniqueSensors.Some? <==> |df.entries| > 0 && SensorCount(df) > 0;

    var dates := Column(df, "date");
    DateRangeOf(df);
    if "date" in df.columns && |df.entries| > 0 && !AllMissing(dates) {
      var known := Stamps(dates);
      s := s.(dateRange := Some(DateRange(Earliest(known), Latest(known))));
    }

    ValueStatsOf(df, fx);
    if "hs" in df.columns && |df.entries| > 0 {
      var numbers := Numbers(Column(df, "hs"), fx);
      if |numbers| > 0 {
        s := s.(valueStats := Some(ValueStats(Least(numbers), Greatest(numbers))));
      }
    }
  }

  /** The snow depth distribution `main` prints. */
  datatype DepthSigns =
    /** The table has no `hs` column; the block is skipped. */
    | NoDepthColumn
    /** A depth that is not a number meets `> 0`, which raises TypeError. */
    | Incomparable
    | Counts(positive: nat, zero: nat, negative: nat)

  predicate IsPositive(c: Cell) { c.Num? && c.x > 0.0 }
  predicate IsZero(c: Cell) { c.Num? && c.x == 0.0 }
  predicate IsNegative(c: Cell) { c.Num? && c.x < 0.0 }
  predicate IsKnown(c: Cell) { !c.Null? }

  /** `df[mask]['hs'].count()`: the values satisfying `p`. */
  function CountWhere(cs: seq<Cell>, p: Cell -> bool): (r: nat)
    ensures r <= |cs|
  {
    if cs == [] then 0
    else CountWhere(cs[..|cs| - 1], p) + (if p(cs[|cs| - 1]) then 1 else 0)
  }

  /** Positive, zero and negative counts of the `hs` column; missing depths are in none. */
  function SignBuckets(t: Table): (r: DepthSigns)
    ensures r.NoDepthColumn? <==> "hs" !in t.columns
    ensures r.Incomparable? <==>
      "hs" in t.columns && exists i :: 0 <= i < |t.entries| && !At(t.entries[i], "hs").Null? && !At(t.entries[i], "hs").Num?
  {
    if "hs" !in t.columns then NoDepthColumn
    else
      var depths := Column(t, "hs");
      if exists i :: 0 <= i < |depths| && !depths[i].Null? && !depths[i].Num? then Incomparable
      else Counts(CountWhere(depths, IsPositive), CountWhere(depths, IsZero), CountWhere(depths, IsNegative))
  }

  /** Over numbers and missing values, every known value is positive, zero or negative, and only one. */
  lemma {:induction false} SignsPartition(cs: seq<Cell>)
    requires forall i :: 0 <= i < |cs| ==> cs[i].Null? || cs[i].Num?
    ensures CountWhere(cs, IsPositive) + CountWhere(cs, IsZero) + CountWhere(cs, IsNegative) == CountWhere(cs, IsKnown)
  {
    if cs != [] {
      SignsPartition(cs[..|cs| - 1]);
    }
  }

  /** The three buckets together hold exactly the rows whose depth is known. */
  lemma BucketsCoverKnownDepths(t: Table)
    requires SignBuckets(t).Counts?
    ensures SignBuckets(t).positive + SignBuckets(t).zero + SignBuckets(t).negative ==
      CountWhere(Column(t, "hs"), IsKnown)
  {
    SignsPartition(Column(t, "hs"));
  }
}
