/** Value-level model of the pandas data frame that the dashboard filter
    works on: an ordered list of column names, a dtype per column and an
    ordered sequence of rows, each row mapping column names to cells. */
module Tables {

  datatype Option<T> = None | Some(value: T)

  /** One scalar cell. `Missing` stands for pandas' NaN / NaT / None.
      Time stamps are wall-clock seconds; numbers are reals. */
  datatype Cell = Missing | Num(num: real) | Str(text: string) | Stamp(time: int)

  /** The dtype families the filter inspects. `DateTime(tzAware)` is
      `datetime64[ns]` or `datetime64[ns, tz]`. */
  datatype Dtype = Object | Numeric | Categorical | DateTime(tzAware: bool)

  type Row = map<string, Cell>

  datatype Table = Table(columns: seq<string>, dtypes: map<string, Dtype>, rows: seq<Row>)

  /** The cell of a row in a column; a row without the key reads as missing. */
  function At(r: Row, c: string): Cell {
    if c in r then r[c] else Missing
  }

  /** The dtype of a column; a column without a recorded dtype is `object`. */
  function DtypeOf(t: Table, c: string): Dtype {
    if c in t.dtypes then t.dtypes[c] else Object
  }

  /** `df[c]` as a sequence of cells, one per row. */
  function ColumnOf(rows: seq<Row>, c: string): (cells: seq<Cell>)
    ensures |cells| == |rows|
    ensures forall i :: 0 <= i < |rows| ==> cells[i] == At(rows[i], c)
  {
    seq(|rows|, i requires 0 <= i < |rows| => At(rows[i], c))
  }

  /** Cells fit their column's dtype: numeric columns hold numbers,
      date-time columns hold time stamps, and any column may hold missing
      values. `object` and `category` columns may hold anything. */
  predicate CellFits(dt: Dtype, v: Cell) {
    match dt
    case Numeric => v.Num? || v == Missing
    case DateTime(_) => v.Stamp? || v == Missing
    case _ => true
  }

  ghost predicate WellTyped(t: Table) {
    forall c, i :: 0 <= i < |t.rows| ==> CellFits(DtypeOf(t, c), At(t.rows[i], c))
  }

  /** `Series.unique()`: the distinct values of a column, missing included. */
  function Unique(rows: seq<Row>, c: string): (vals: set<Cell>)
    ensures forall v :: v in vals <==> exists i :: 0 <= i < |rows| && At(rows[i], c) == v
  {
    if rows == [] then {}
    else
      var rest := Unique(rows[1..], c);
      assert forall i :: 0 < i < |rows| ==> rows[1..][i - 1] == rows[i];
      {At(rows[0], c)} + rest
  }

  /** `Series.nunique()`: the number of distinct non-missing values. */
  function NUnique(rows: seq<Row>, c: string): nat {
    |Unique(rows, c) - {Missing}|
  }

  /** `nunique()` ignores missing values: it is zero exactly when every cell
      of the column is missing. */
  lemma NUniqueZero(rows: seq<Row>, c: string)
    ensures NUnique(rows, c) == 0 <==> forall i :: 0 <= i < |rows| ==> At(rows[i], c) == Missing
  {
    if exists i :: 0 <= i < |rows| && At(rows[i], c) != Missing {
      var i :| 0 <= i < |rows| && At(rows[i], c) != Missing;
      assert At(rows[i], c) in Unique(rows, c) - {Missing};
    }
  }

  /** The non-missing numbers of a column, in row order. */
  function Numbers(rows: seq<Row>, c: string): (xs: seq<real>)
    ensures forall v :: v in xs <==> exists i :: 0 <= i < |rows| && At(rows[i], c) == Num(v)
  {
    if rows == [] then []
    else
      var rest := Numbers(rows[1..], c);
      assert forall i :: 0 < i < |rows| ==> rows[1..][i - 1] == rows[i];
      (if At(rows[0], c).Num? then [At(rows[0], c).num] else []) + rest
  }

  /** The non-missing time stamps of a column, in row order. */
  function Times(rows: seq<Row>, c: string): (ts: seq<int>)
    ensures forall v :: v in ts <==> exists i :: 0 <= i < |rows| && At(rows[i], c) == Stamp(v)
  {
    if rows == [] then []
    else
      var rest := Times(rows[1..], c);
      assert forall i :: 0 < i < |rows| ==> rows[1..][i - 1] == rows[i];
      (if At(rows[0], c).Stamp? then [At(rows[0], c).time] else []) + rest
  }

  /** `Series.min()`. */
  function MinReal(xs: seq<real>): (m: real)
    requires xs != []
    ensures m in xs && forall i :: 0 <= i < |xs| ==> m <= xs[i]
  {
    if |xs| == 1 then xs[0]
    else
      var m := MinReal(xs[1..]);
      assert forall i :: 1 <= i < |xs| ==> xs[i] == xs[1..][i - 1];
      if xs[0] <= m then xs[0] else m
  }

  /** `Series.max()`. */
  function MaxReal(xs: seq<real>): (m: real)
    requires xs != []
    ensures m in xs && forall i :: 0 <= i < |xs| ==> xs[i] <= m
  {
    if |xs| == 1 then xs[0]
    else
      var m := MaxReal(xs[1..]);
      assert forall i :: 1 <= i < |xs| ==> xs[i] == xs[1..][i - 1];
      if xs[0] >= m then xs[0] else m
  }

  /** `Series.min()` of a date-time column. */
  function Earliest(ts: seq<int>): (m: int)
    requires ts != []
    ensures m in ts && forall i :: 0 <= i < |ts| ==> m <= ts[i]
  {
    if |ts| == 1 then ts[0]
    else
      var m := Earliest(ts[1..]);
      assert forall i :: 1 <= i < |ts| ==> ts[i] == ts[1..][i - 1];
      if ts[0] <= m then ts[0] else m
  }

  /** `Series.max()` of a date-time column. */
  function Latest(ts: seq<int>): (m: int)
    requires ts != []
    ensures m in ts && forall i :: 0 <= i < |ts| ==> ts[i] <= m
  {
    if |ts| == 1 then ts[0]
    else
      var m := Latest(ts[1..]);
      assert forall i :: 1 <= i < |ts| ==> ts[i] == ts[1..][i - 1];
      if ts[0] >= m then ts[0] else m
  }

  /** `df[c] = cells` with the column's new dtype: column `c` is replaced
      (or appended when new), every other column is left as it was. */
  function WithColumn(t: Table, c: string, cells: seq<Cell>, dt: Dtype): (u: Table)
    requires |cells| == |t.rows|
    ensures |u.rows| == |t.rows|
    ensures ColumnOf(u.rows, c) == cells && DtypeOf(u, c) == dt
    ensures forall d :: d != c ==> DtypeOf(u, d) == DtypeOf(t, d)
    ensures forall d :: d != c ==> ColumnOf(u.rows, d) == ColumnOf(t.rows, d)
    ensures c in t.columns ==> u.columns == t.columns
  {
    var u := Table(if c in t.columns then t.columns else t.columns + [c],
                   t.dtypes[c := dt],
                   seq(|t.rows|, i requires 0 <= i < |t.rows| => t.rows[i][c := cells[i]]));
    assert forall d :: d != c ==> ColumnOf(u.rows, d) == ColumnOf(t.rows, d) by {
      forall d | d != c ensures ColumnOf(u.rows, d) == ColumnOf(t.rows, d) {
        assert forall i :: 0 <= i < |t.rows| ==> At(u.rows[i], d) == At(t.rows[i], d);
      }
    }
    u
  }

  /** `s` is `t` with some elements dropped: same elements, same relative order. */
  predicate IsSubsequence<T(==)>(s: seq<T>, t: seq<T>)
    decreases |t|
  {
    s == [] || (t != [] && ((s[0] == t[0] && IsSubsequence(s[1..], t[1..])) || IsSubsequence(s, t[1..])))
  }

  /** Every sequence is a subsequence of itself. */
  lemma {:induction false} SubsequenceOfItself<T>(s: seq<T>)
    ensures IsSubsequence(s, s)
    decreases |s|
  {
    if s != [] {
      SubsequenceOfItself(s[1..]);
    }
  }
}
