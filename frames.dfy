/**
 * Tables as the fetchers, the aggregator, the uploader and the summary see
 * them: a pandas DataFrame reduced to its ordered column labels and its
 * ordered entries, each entry an index label with one cell per column.
 * The whole-table operations the pipelines use (column selection, renaming,
 * `apply`, `set_index`, column assignment, inner join on the index,
 * `reset_index(drop=True)`, `dropna()` and `concat(ignore_index=True)`) are
 * defined here once.
 */
module Frames {
  import opened Wrappers

  /** A calendar timestamp as dateutil returns it; `tz` names its timezone, if it has one. */
  datatype DateTime = DateTime(
    year: int, month: int, day: int,
    hour: int, minute: int, second: int, microsecond: int,
    tz: Option<string>)

  /** Chronological order of naive timestamps (the timezone is not consulted). */
  predicate NotAfter(a: DateTime, b: DateTime) {
    if a.year != b.year then a.year < b.year
    else if a.month != b.month then a.month < b.month
    else if a.day != b.day then a.day < b.day
    else if a.hour != b.hour then a.hour < b.hour
    else if a.minute != b.minute then a.minute < b.minute
    else if a.second != b.second then a.second < b.second
    else a.microsecond <= b.microsecond
  }

  /** One cell. `Null` is pandas' missing marker (NaN, or NaT in a date column). */
  datatype Cell = Null | Num(x: real) | Text(s: string) | Stamp(t: DateTime)

  /** An index label: a position of a fresh RangeIndex, or a value moved into the index. */
  datatype Label = Pos(n: nat) | Key(c: Cell)

  datatype Entry = Entry(index: Label, cells: map<string, Cell>)

  datatype Table = Table(columns: seq<string>, entries: seq<Entry>)

  function ColumnSet(cols: seq<string>): set<string> {
    set c | c in cols
  }

  predicate Distinct(cols: seq<string>) {
    forall i, j :: 0 <= i < j < |cols| ==> cols[i] != cols[j]
  }

  /** Column labels are unique and every entry has exactly one cell per column. */
  predicate Valid(t: Table) {
    && Distinct(t.columns)
    && forall i :: 0 <= i < |t.entries| ==> t.entries[i].cells.Keys == ColumnSet(t.columns)
  }

  lemma MembersHaveColumns(t: Table)
    requires Valid(t)
    ensures forall e :: e in t.entries ==> e.cells.Keys == ColumnSet(t.columns)
  {
    forall e | e in t.entries ensures e.cells.Keys == ColumnSet(t.columns) {
      var i :| 0 <= i < |t.entries| && t.entries[i] == e;
    }
  }

  /** `row.get(col)`: None when the table has no such column. */
  function Get(e: Entry, col: string): Option<Cell> {
    if col in e.cells then Some(e.cells[col]) else None
  }

  /** The cell of `col`, or a missing value when the entry has no such column. */
  function At(e: Entry, col: string): Cell {
    if col in e.cells then e.cells[col] else Null
  }

  /** `pd.isna(row.get(col))`: an absent column or a missing value. */
  predicate IsNa(o: Option<Cell>) {
    o.None? || o.value.Null?
  }

  /** No cell of the row is missing. */
  predicate Complete(cells: map<string, Cell>) {
    forall c :: c in cells ==> !cells[c].Null?
  }

  /** Labels are positions in strictly increasing order (not necessarily contiguous). */
  predicate Ascending(es: seq<Entry>) {
    && (forall i :: 0 <= i < |es| ==> es[i].index.Pos?)
    && (forall i, j :: 0 <= i < j < |es| ==> es[i].index.n < es[j].index.n)
  }

  /** The labels of `cols` that are not among `present`, in order. */
  function Absent(cols: seq<string>, present: seq<string>): (r: seq<string>)
    ensures forall c :: c in r <==> c in cols && c !in present
    ensures |r| <= |cols|
    ensures Distinct(cols) ==> Distinct(r)
  {
    if cols == [] then []
    else (if cols[0] in present then [] else [cols[0]]) + Absent(cols[1..], present)
  }

  /** `df[cols]`: the named columns, in the order given. */
  function Select(t: Table, cols: seq<string>): (r: Table)
    requires Valid(t) && Distinct(cols)
    requires forall c :: c in cols ==> c in t.columns
    ensures Valid(r) && r.columns == cols && |r.entries| == |t.entries|
    ensures forall i :: 0 <= i < |t.entries| ==> r.entries[i].index == t.entries[i].index
    ensures forall i, c :: 0 <= i < |t.entries| && c in cols ==> r.entries[i].cells[c] == t.entries[i].cells[c]
  {
    Table(cols, seq(|t.entries|, i requires 0 <= i < |t.entries| =>
      var e := t.entries[i];
      assert e in t.entries;
      Entry(e.index, map c | c in cols :: e.cells[c])))
  }

  /** The new label of column `c` under `df.rename(columns=m)`; labels not in `m` are kept. */
  function Renamed(m: map<string, string>, c: string): string {
    if c in m then m[c] else c
  }

  /** The renaming does not make two columns share a label. */
  predicate RenameIsInjective(cols: seq<string>, m: map<string, string>) {
    forall a, b :: a in cols && b in cols && a != b ==> Renamed(m, a) != Renamed(m, b)
  }

  function RenameCells(cells: map<string, Cell>, m: map<string, string>): (r: map<string, Cell>)
    requires forall a, b :: a in cells && b in cells && a != b ==> Renamed(m, a) != Renamed(m, b)
    ensures r.Keys == set c | c in cells :: Renamed(m, c)
    ensures forall c :: c in cells ==> r[Renamed(m, c)] == cells[c]
  {
    map c | c in cells :: Renamed(m, c) := cells[c]
  }

  function RenameColumns(cols: seq<string>, m: map<string, string>): (r: seq<string>)
    ensures |r| == |cols| && forall i :: 0 <= i < |cols| ==> r[i] == Renamed(m, cols[i])
    ensures ColumnSet(r) == set c | c in cols :: Renamed(m, c)
  {
    if cols == [] then [] else [Renamed(m, cols[0])] + RenameColumns(cols[1..], m)
  }

  function RenameEntry(e: Entry, cols: seq<string>, m: map<string, string>): (r: Entry)
    requires e.cells.Keys == ColumnSet(cols) && RenameIsInjective(cols, m)
    ensures r.index == e.index && r.cells.Keys == ColumnSet(RenameColumns(cols, m))
    ensures forall c :: c in cols ==> Renamed(m, c) in r.cells && r.cells[Renamed(m, c)] == e.cells[c]
  {
    assert forall c :: c in e.cells <==> c in cols;
    var cells := RenameCells(e.cells, m);
    assert cells.Keys == ColumnSet(RenameColumns(cols, m)) by {
      assert (set c | c in e.cells :: Renamed(m, c)) == (set c | c in cols :: Renamed(m, c));
    }
    Entry(e.index, cells)
  }

  /** `df.rename(columns=m)`: every column keeps its place and its cells under its new label. */
  function Rename(t: Table, m: map<string, string>): (r: Table)
    requires Valid(t) && RenameIsInjective(t.columns, m)
    ensures Valid(r) && r.columns == RenameColumns(t.columns, m) && |r.entries| == |t.entries|
    ensures forall i :: 0 <= i < |t.entries| ==> r.entries[i].index == t.entries[i].index
    ensures forall i, c :: 0 <= i < |t.entries| && c in t.columns ==>
      Renamed(m, c) in r.entries[i].cells && r.entries[i].cells[Renamed(m, c)] == t.entries[i].cells[c]
  {
    var cols := RenameColumns(t.columns, m);
    assert Distinct(cols) by {
      forall i, j | 0 <= i < j < |cols| ensures cols[i] != cols[j] {
        assert t.columns[i] in t.columns && t.columns[j] in t.columns;
      }
    }
    var es := seq(|t.entries|, i requires 0 <= i < |t.entries| =>
      assert t.entries[i] in t.entries;
      RenameEntry(t.entries[i], t.columns, m));
    Table(cols, es)
  }

  /** `df[col] = df[col].apply(f)` */
  function Apply(t: Table, col: string, f: Cell -> Cell): (r: Table)
    requires Valid(t) && col in t.columns
    ensures Valid(r) && r.columns == t.columns && |r.entries| == |t.entries|
    ensures forall i :: 0 <= i < |t.entries| ==> r.entries[i].index == t.entries[i].index
    ensures forall i :: 0 <= i < |t.entries| ==> r.entries[i].cells == t.entries[i].cells[col := f(t.entries[i].cells[col])]
  {
    Table(t.columns, seq(|t.entries|, i requires 0 <= i < |t.entries| =>
      var e := t.entries[i];
      assert e in t.entries;
      Entry(e.index, e.cells[col := f(e.cells[col])])))
  }

  /** `df[target] = df[src]`: overwrites `target` in place, or appends it as the last column. */
  function Assign(t: Table, target: string, src: string): (r: Table)
    requires Valid(t) && src in t.columns
    ensures Valid(r) && |r.entries| == |t.entries|
    ensures r.columns == if target in t.columns then t.columns else t.columns + [target]
    ensures forall i :: 0 <= i < |t.entries| ==> r.entries[i].index == t.entries[i].index
    ensures forall i :: 0 <= i < |t.entries| ==> r.entries[i].cells == t.entries[i].cells[target := t.entries[i].cells[src]]
  {
    var cols := if target in t.columns then t.columns else t.columns + [target];
    assert ColumnSet(cols) == ColumnSet(t.columns) + {target};
    Table(cols, seq(|t.entries|, i requires 0 <= i < |t.entries| =>
      var e := t.entries[i];
      assert e in t.entries;
      Entry(e.index, e.cells[target := e.cells[src]])))
  }

  function Without(cols: seq<string>, c: string): (r: seq<string>)
    ensures ColumnSet(r) == ColumnSet(cols) - {c}
    ensures Distinct(cols) ==> Distinct(r)
  {
    Absent(cols, [c])
  }

  /** The labels of `a` that `b` also has, in the order of `a`. */
  function Shared(a: seq<string>, b: seq<string>): (r: seq<string>)
    ensures forall c :: c in r <==> c in a && c in b
    ensures r == [] <==> ColumnSet(a) !! ColumnSet(b)
  {
    if a == [] then []
    else
      var rest := Shared(a[1..], b);
      assert forall c :: c in a <==> c == a[0] || c in a[1..];
      if a[0] in b then
        assert a[0] in ColumnSet(a) * ColumnSet(b);
        [a[0]] + rest
      else
        assert ColumnSet(a) * ColumnSet(b) == ColumnSet(a[1..]) * ColumnSet(b);
        rest
  }

  /** `df.set_index(col)`: the column's cells become the index labels and the column is removed. */
  function SetIndex(t: Table, col: string): (r: Table)
    requires Valid(t) && col in t.columns
    ensures Valid(r) && r.columns == Without(t.columns, col) && |r.entries| == |t.entries|
    ensures forall i :: 0 <= i < |t.entries| ==>
      r.entries[i] == Entry(Key(t.entries[i].cells[col]), t.entries[i].cells - {col})
  {
    Table(Without(t.columns, col), seq(|t.entries|, i requires 0 <= i < |t.entries| =>
      var e := t.entries[i];
      assert e in t.entries;
      Entry(Key(e.cells[col]), e.cells - {col})))
  }

  /** One joined row: the left entry's label, the cells of both sides. */
  function Merge(a: Entry, b: Entry): Entry {
    Entry(a.index, a.cells + b.cells)
  }

  function Matches(a: Entry, rs: seq<Entry>): (r: seq<Entry>)
    ensures forall e :: e in r <==> exists b :: b in rs && b.index == a.index && e == Merge(a, b)
  {
    if rs == [] then []
    else (if rs[0].index == a.index then [Merge(a, rs[0])] else []) + Matches(a, rs[1..])
  }

  function JoinEntries(ls: seq<Entry>, rs: seq<Entry>): (r: seq<Entry>)
    ensures forall e :: e in r <==>
      exists a, b :: a in ls && b in rs && a.index == b.index && e == Merge(a, b)
  {
    if ls == [] then [] else Matches(ls[0], rs) + JoinEntries(ls[1..], rs)
  }

  /**
   * `l.join(r, how='inner')`: one row per pair of a left and a right entry
   * with equal index labels; a left entry whose label has no partner is dropped.
   */
  function Join(l: Table, r: Table): (j: Table)
    requires Valid(l) && Valid(r) && ColumnSet(l.columns) !! ColumnSet(r.columns)
    ensures Valid(j) && j.columns == l.columns + r.columns
    ensures forall e :: e in j.entries <==>
      exists a, b :: a in l.entries && b in r.entries && a.index == b.index && e == Merge(a, b)
  {
    var cols := l.columns + r.columns;
    assert Distinct(cols) by {
      forall i, k | 0 <= i < k < |cols| ensures cols[i] != cols[k] {
        if i < |l.columns| && k >= |l.columns| {
          assert cols[i] in ColumnSet(l.columns) && cols[k] in ColumnSet(r.columns);
        }
      }
    }
    assert ColumnSet(cols) == ColumnSet(l.columns) + ColumnSet(r.columns);
    MembersHaveColumns(l);
    MembersHaveColumns(r);
    var es := JoinEntries(l.entries, r.entries);
    assert forall i :: 0 <= i < |es| ==> es[i].cells.Keys == ColumnSet(cols) by {
      forall i | 0 <= i < |es| ensures es[i].cells.Keys == ColumnSet(cols) {
        assert es[i] in es;
      }
    }
    Table(cols, es)
  }

  /** `df.reset_index(drop=True)`: the same rows, labelled 0 .. n-1. */
  function ResetIndex(t: Table): (r: Table)
    ensures r.columns == t.columns && |r.entries| == |t.entries|
    ensures forall i :: 0 <= i < |t.entries| ==> r.entries[i] == Entry(Pos(i), t.entries[i].cells)
    ensures Valid(t) ==> Valid(r)
  {
    Table(t.columns, seq(|t.entries|, i requires 0 <= i < |t.entries| => Entry(Pos(i), t.entries[i].cells)))
  }

  /** `reset_index` changes labels only: its rows carry exactly the cells of its input's rows. */
  lemma ResetIndexRows(t: Table)
    ensures forall e :: e in ResetIndex(t).entries ==> exists a :: a in t.entries && a.cells == e.cells
    ensures forall a :: a in t.entries ==> exists e :: e in ResetIndex(t).entries && e.cells == a.cells
  {
    var r := ResetIndex(t);
    forall e | e in r.entries ensures exists a :: a in t.entries && a.cells == e.cells {
      var i :| 0 <= i < |r.entries| && r.entries[i] == e;
      assert t.entries[i] in t.entries;
    }
    forall a | a in t.entries ensures exists e :: e in r.entries && e.cells == a.cells {
      var i :| 0 <= i < |t.entries| && t.entries[i] == a;
      assert r.entries[i] in r.entries;
    }
  }

  function DropNaEntries(es: seq<Entry>): (r: seq<Entry>)
    ensures forall e :: e in r <==> e in es && Complete(e.cells)
    ensures |r| <= |es|
  {
    if es == [] then []
    else (if Complete(es[0].cells) then [es[0]] else []) + DropNaEntries(es[1..])
  }

  /** `df.dropna()`: the rows without a missing value in any column, in order and with their labels. */
  function DropNa(t: Table): (r: Table)
    ensures r.columns == t.columns && |r.entries| <= |t.entries|
    ensures forall e :: e in r.entries <==> e in t.entries && Complete(e.cells)
    ensures Valid(t) ==> Valid(r)
  {
    var es := DropNaEntries(t.entries);
    if Valid(t) then
      MembersHaveColumns(t);
      assert forall i :: 0 <= i < |es| ==> es[i] in es;
      Table(t.columns, es)
    else
      Table(t.columns, es)
  }

  /** Filtering keeps the relative order of the labels. */
  lemma {:induction false} DropNaKeepsOrder(es: seq<Entry>)
    requires Ascending(es)
    ensures Ascending(DropNaEntries(es))
  {
    if es != [] {
      var tail := es[1..];
      assert Ascending(tail) by {
        forall i, j | 0 <= i < j < |tail| ensures tail[i].index.n < tail[j].index.n {
          assert tail[i] == es[i + 1] && tail[j] == es[j + 1];
        }
      }
      DropNaKeepsOrder(tail);
      var rest := DropNaEntries(tail);
      assert forall e :: e in rest ==> e.index.Pos? && es[0].index.n < e.index.n by {
        forall e | e in rest ensures e.index.Pos? && es[0].index.n < e.index.n {
          var k :| 0 <= k < |tail| && tail[k] == e;
          assert es[k + 1] == e;
        }
      }
      if Complete(es[0].cells) {
        assert DropNaEntries(es) == [es[0]] + rest;
        PrependKeepsOrder(es[0], rest);
      } else {
        assert DropNaEntries(es) == rest;
      }
    }
  }

  lemma PrependKeepsOrder(e: Entry, rest: seq<Entry>)
    requires Ascending(rest) && e.index.Pos?
    requires forall x :: x in rest ==> x.index.Pos? && e.index.n < x.index.n
    ensures Ascending([e] + rest)
  {
    var r := [e] + rest;
    forall i, j | 0 <= i < j < |r| ensures r[i].index.n < r[j].index.n {
      if i == 0 {
        assert r[j] in rest;
      } else {
        assert r[i] == rest[i - 1] && r[j] == rest[j - 1];
      }
    }
  }

  /** `reset_index(drop=True).dropna()` leaves position labels in increasing order, with gaps where rows were dropped. */
  lemma ResetThenDropNaAscending(t: Table)
    ensures Ascending(DropNa(ResetIndex(t)).entries)
  {
    DropNaKeepsOrder(ResetIndex(t).entries);
  }

  /** `reset_index(drop=True).dropna()` keeps exactly the rows of its input that have no missing value. */
  lemma ResetThenDropNaRows(t: Table)
    ensures forall e :: e in DropNa(ResetIndex(t)).entries ==> Complete(e.cells) && exists a :: a in t.entries && a.cells == e.cells
    ensures forall a :: a in t.entries && Complete(a.cells) ==> exists e :: e in DropNa(ResetIndex(t)).entries && e.cells == a.cells
  {
    var r := ResetIndex(t);
    forall e | e in DropNa(r).entries ensures Complete(e.cells) && exists a :: a in t.entries && a.cells == e.cells {
      var i :| 0 <= i < |r.entries| && r.entries[i] == e;
      assert t.entries[i] in t.entries;
    }
    forall a | a in t.entries && Complete(a.cells) ensures exists e :: e in DropNa(r).entries && e.cells == a.cells {
      var i :| 0 <= i < |t.entries| && t.entries[i] == a;
      assert r.entries[i] in r.entries;
      assert r.entries[i] in DropNa(r).entries;
    }
  }

  /** The columns of `pd.concat([a, b])`: those of `a`, then those only `b` has. */
  function UnionColumns(a: seq<string>, b: seq<string>): (r: seq<string>)
    ensures ColumnSet(r) == ColumnSet(a) + ColumnSet(b)
    ensures |r| >= |a| && r[..|a|] == a
    ensures Distinct(a) && Distinct(b) ==> Distinct(r)
  {
    var extra := Absent(b, a);
    var r := a + extra;
    assert r[..|a|] == a;
    assert Distinct(a) && Distinct(b) ==> Distinct(r) by {
      if Distinct(a) && Distinct(b) {
        forall i, k | 0 <= i < k < |r| ensures r[i] != r[k] {
          if i < |a| && k >= |a| {
            assert r[k] in extra;
          }
        }
      }
    }
    r
  }

  /** A row of one input padded to the union's columns with missing values. */
  function Pad(cells: map<string, Cell>, cols: seq<string>): (r: map<string, Cell>)
    ensures r.Keys == ColumnSet(cols)
  {
    map c | c in ColumnSet(cols) :: if c in cells then cells[c] else Null
  }

  function PadAll(es: seq<Entry>, cols: seq<string>): (r: seq<Entry>)
    ensures |r| == |es|
    ensures forall i :: 0 <= i < |es| ==> r[i].cells == Pad(es[i].cells, cols)
  {
    seq(|es|, i requires 0 <= i < |es| => Entry(es[i].index, Pad(es[i].cells, cols)))
  }

  /**
   * `pd.concat([t1, t2], ignore_index=True)`: the rows of `t1`, then those of
   * `t2`, labelled 0 .. n-1, each padded with missing values in the columns
   * only the other table has.
   */
  function Concat(t1: Table, t2: Table): (r: Table)
    requires Valid(t1) && Valid(t2)
    ensures Valid(r) && r.columns == UnionColumns(t1.columns, t2.columns)
    ensures |r.entries| == |t1.entries| + |t2.entries|
    ensures forall i :: 0 <= i < |r.entries| ==> r.entries[i].index == Pos(i)
  {
    var cols := UnionColumns(t1.columns, t2.columns);
    var p1, p2 := PadAll(t1.entries, cols), PadAll(t2.entries, cols);
    var stacked := p1 + p2;
    assert forall i :: 0 <= i < |stacked| ==> stacked[i].cells.Keys == ColumnSet(cols) by {
      forall i | 0 <= i < |stacked| ensures stacked[i].cells.Keys == ColumnSet(cols) {
        if i < |p1| {
          assert stacked[i] == p1[i];
        } else {
          assert stacked[i] == p2[i - |p1|];
        }
      }
    }
    ResetIndex(Table(cols, stacked))
  }

  /**
   * Every row of the concatenation carries the values of the row it came
   * from, and a missing value in each column its own table lacked.
   */
  lemma ConcatRows(t1: Table, t2: Table, i: nat, c: string)
    requires Valid(t1) && Valid(t2) && c in Concat(t1, t2).columns
    ensures i < |t1.entries| ==>
      Concat(t1, t2).entries[i].cells[c] == if c in t1.columns then t1.entries[i].cells[c] else Null
    ensures |t1.entries| <= i < |t1.entries| + |t2.entries| ==>
      Concat(t1, t2).entries[i].cells[c] ==
        if c in t2.columns then t2.entries[i - |t1.entries|].cells[c] else Null
  {
    var cols := UnionColumns(t1.columns, t2.columns);
    var p1, p2 := PadAll(t1.entries, cols), PadAll(t2.entries, cols);
    var stacked: seq<Entry> := p1 + p2;
    var r := Concat(t1, t2);
    assert r == ResetIndex(Table(cols, stacked));
    if i < |t1.entries| {
      assert r.entries[i].cells == stacked[i].cells == Pad(t1.entries[i].cells, cols);
      assert c in t1.entries[i].cells <==> c in ColumnSet(t1.columns);
    } else if i < |t1.entries| + |t2.entries| {
      var k := i - |t1.entries|;
      assert r.entries[i].cells == stacked[i].cells == Pad(t2.entries[k].cells, cols);
      assert c in t2.entries[k].cells <==> c in ColumnSet(t2.columns);
    }
  }
}
