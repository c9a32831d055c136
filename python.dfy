/**
 * The pieces of Python and library behaviour that the core's row logic leans
 * on: truthiness of a cell (for the `a or b or c` fallbacks), `str()` and
 * `float()` of a cell, and the rendering of an index label in an f-string.
 * Conversions that the model does not define itself (dateutil's parser,
 * `float()` of a string, `str()` of a number or a timestamp) are parameters
 * bundled in `Foreign`.
 */
module Python {
  import opened Wrappers
  import opened Frames
  import Text

  /** Conversions delegated to Python, pandas and dateutil. */
  datatype Foreign = Foreign(
    /** `dateutil.parser.parse(s)`; None where it raises ValueError or TypeError. */
    parseDate: string -> Option<DateTime>,
    /** `float(s)` of a string; None where it raises ValueError. */
    parseFloat: string -> Option<real>,
    /**
     * `pd.to_numeric(s, errors='coerce')` of a string; None where it coerces
     * to NaN. Its grammar differs from `float()`'s (`float("1_0")` is 10.0,
     * while `to_numeric` coerces "1_0" to NaN), so it is a separate parameter.
     */
    toNumeric: string -> Option<real>,
    /** `str(x)` of a number. */
    showNum: real -> string,
    /** `str(t)` of a timestamp. */
    showStamp: DateTime -> string)

  /**
   * Python truthiness of `row.get(col)`: an absent column gives None, which is
   * falsy; a missing value is NaN (or NaT), which is truthy; a number is
   * falsy only when zero and a string only when empty.
   */
  predicate Truthy(o: Option<Cell>)
    ensures Truthy(o) <==> o.Some? && o.value != Num(0.0) && o.value != Text("")
  {
    match o
    case None => false
    case Some(Null) => true
    case Some(Num(x)) => x != 0.0
    case Some(Text(s)) => s != ""
    case Some(Stamp(_)) => true
  }

  /** `o1 or o2 or ...`, where the chain ends in a fallback: the first truthy value, if any. */
  function FirstTruthy(os: seq<Option<Cell>>): (r: Option<Cell>)
    ensures r.Some? <==> exists k :: 0 <= k < |os| && Truthy(os[k])
    ensures r.Some? ==>
      exists k :: 0 <= k < |os| && os[k] == r && Truthy(os[k]) && forall j :: 0 <= j < k ==> !Truthy(os[j])
  {
    if os == [] then None
    else if Truthy(os[0]) then os[0]
    else
      var r := FirstTruthy(os[1..]);
      assert forall k :: 1 <= k < |os| ==> os[k] == os[1..][k - 1];
      r
  }

  /** `str(value)` of a cell; a missing value prints as "nan". */
  function Str(c: Cell, fx: Foreign): (r: string)
    ensures c.Null? ==> r == "nan"
    ensures c.Text? ==> r == c.s
  {
    match c
    case Null => "nan"
    case Num(x) => fx.showNum(x)
    case Text(s) => s
    case Stamp(t) => fx.showStamp(t)
  }

  /** `float(value)` of a present cell; None where Python raises ValueError or TypeError. */
  function ToFloat(c: Cell, fx: Foreign): (r: Option<real>)
    requires !c.Null?
    ensures c.Num? ==> r == Some(c.x)
    ensures r.None? <==> c.Stamp? || (c.Text? && fx.parseFloat(c.s).None?)
    ensures c.Text? && r.Some? ==> r == fx.parseFloat(c.s)
  {
    match c
    case Num(x) => Some(x)
    case Text(s) => fx.parseFloat(s)
    case Stamp(_) => None
  }

  /** An index label inside an f-string. */
  function LabelText(l: Label, fx: Foreign): string {
    match l
    case Pos(n) => Text.NatToString(n)
    case Key(c) => Str(c, fx)
  }
}
