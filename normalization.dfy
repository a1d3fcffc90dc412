/** The best-effort date normalisation run over every column of the copied
    frame before any filter is built: an `object` column that
    `pd.to_datetime` converts becomes a date-time column, and every
    date-time column has its time zone dropped with `tz_localize(None)`. */
module Normalization {
  import opened Tables

  /** `out` is a possible result of `pd.to_datetime` on the column `cells`:
      one cell per input cell, in order, each a time stamp or NaT, and every
      missing input cell NaT. */
  predicate IsDatetimeColumn(cells: seq<Cell>, out: seq<Cell>) {
    && |out| == |cells|
    && forall i :: 0 <= i < |cells| ==>
         (out[i].Stamp? || out[i] == Missing) && (cells[i] == Missing ==> out[i] == Missing)
  }

  /** `pd.to_datetime` on a whole column, left uninterpreted: `None` when it
      raises, otherwise the converted column. It works on the column as a
      whole, so whether one cell converts, and to what, may depend on the
      other cells (an inferred format, say). */
  type DateParser = parse: seq<Cell> -> Option<seq<Cell>>
    | forall cells :: parse(cells).Some? ==> IsDatetimeColumn(cells, parse(cells).value)
    witness (cells: seq<Cell>) => None

  /** One iteration of the normalisation loop, on column `c`: first the
      `try: df[c] = pd.to_datetime(df[c])` for `object` columns (a failure
      is swallowed), then `tz_localize(None)` for date-time columns. Time
      stamps are kept as wall-clock time, so dropping the zone leaves the
      cells as they are and makes the dtype naive. */
  function NormalizeColumn(t: Table, c: string, parse: DateParser): (u: Table)
    requires c in t.columns
    ensures u.columns == t.columns && |u.rows| == |t.rows|
    ensures DtypeOf(u, c) == NormalDtype(DtypeOf(t, c), ColumnOf(t.rows, c), parse)
    ensures ColumnOf(u.rows, c) == NormalCells(DtypeOf(t, c), ColumnOf(t.rows, c), parse)
    ensures forall d :: d != c ==> DtypeOf(u, d) == DtypeOf(t, d)
    ensures forall d :: d != c ==> ColumnOf(u.rows, d) == ColumnOf(t.rows, d)
  {
    var parsed :=
      if DtypeOf(t, c) == Object then
        match parse(ColumnOf(t.rows, c))
        case Some(cells) => WithColumn(t, c, cells, DateTime(false))
        case None => t
      else t;
    if DtypeOf(parsed, c).DateTime? then WithColumn(parsed, c, ColumnOf(parsed.rows, c), DateTime(false))
    else parsed
  }

  /** The normalisation loop over the columns `cols`, in order. */
  function Normalize(t: Table, cols: seq<string>, parse: DateParser): (u: Table)
    requires forall c :: c in cols ==> c in t.columns
    ensures u.columns == t.columns && |u.rows| == |t.rows|
    decreases |cols|
  {
    if cols == [] then t
    else Normalize(NormalizeColumn(t, cols[0], parse), cols[1..], parse)
  }

  /** What normalisation makes of a column's dtype, column by column:
      date-time columns and `object` columns that fully parse become naive
      date-time; every other column keeps its dtype. */
  function NormalDtype(dt: Dtype, cells: seq<Cell>, parse: DateParser): Dtype {
    if dt.DateTime? || (dt == Object && parse(cells).Some?) then DateTime(false) else dt
  }

  /** What normalisation makes of a column's cells: only a converted
      `object` column changes, to its parsed cells. */
  function NormalCells(dt: Dtype, cells: seq<Cell>, parse: DateParser): seq<Cell> {
    if dt == Object && parse(cells).Some? then parse(cells).value else cells
  }

  /** Normalising a normalised column again changes nothing. */
  lemma NormalIdempotent(dt: Dtype, cells: seq<Cell>, parse: DateParser)
    ensures NormalDtype(NormalDtype(dt, cells, parse), NormalCells(dt, cells, parse), parse) == NormalDtype(dt, cells, parse)
    ensures NormalCells(NormalDtype(dt, cells, parse), NormalCells(dt, cells, parse), parse) == NormalCells(dt, cells, parse)
  {
  }

  /** The loop as a whole: it keeps the columns and the number of rows,
      normalises each visited column as `NormalDtype`/`NormalCells` say
      (whether it was visited once or several times), and leaves every
      other column alone. */
  lemma {:induction false} NormalizeEffect(t: Table, cols: seq<string>, parse: DateParser)
    requires forall c :: c in cols ==> c in t.columns
    ensures Normalize(t, cols, parse).columns == t.columns
    ensures |Normalize(t, cols, parse).rows| == |t.rows|
    ensures forall c :: DtypeOf(Normalize(t, cols, parse), c) ==
                          (if c in cols then NormalDtype(DtypeOf(t, c), ColumnOf(t.rows, c), parse) else DtypeOf(t, c))
    ensures forall c :: ColumnOf(Normalize(t, cols, parse).rows, c) ==
                          (if c in cols then NormalCells(DtypeOf(t, c), ColumnOf(t.rows, c), parse) else ColumnOf(t.rows, c))
    decreases |cols|
  {
    if cols != [] {
      var c0 := cols[0];
      var u := NormalizeColumn(t, c0, parse);
      NormalizeEffect(u, cols[1..], parse);
      var n := Normalize(t, cols, parse);
      assert n == Normalize(u, cols[1..], parse);
      forall c
        ensures DtypeOf(n, c) == (if c in cols then NormalDtype(DtypeOf(t, c), ColumnOf(t.rows, c), parse) else DtypeOf(t, c))
        ensures ColumnOf(n.rows, c) == (if c in cols then NormalCells(DtypeOf(t, c), ColumnOf(t.rows, c), parse) else ColumnOf(t.rows, c))
      {
        assert c in cols <==> c == c0 || c in cols[1..];
        if c == c0 {
          NormalIdempotent(DtypeOf(t, c), ColumnOf(t.rows, c), parse);
        }
      }
    }
  }

  /** Normalisation keeps a well-typed table well typed: a converted column
      holds only time stamps and missing values. */
  lemma NormalizePreservesWellTyped(t: Table, parse: DateParser)
    requires WellTyped(t)
    ensures WellTyped(Normalize(t, t.columns, parse))
  {
    var n := Normalize(t, t.columns, parse);
    NormalizeEffect(t, t.columns, parse);
    forall c, i | 0 <= i < |n.rows|
      ensures CellFits(DtypeOf(n, c), At(n.rows[i], c))
    {
      assert At(n.rows[i], c) == ColumnOf(n.rows, c)[i];
      assert At(t.rows[i], c) == ColumnOf(t.rows, c)[i];
      var cells := ColumnOf(t.rows, c);
      if DtypeOf(t, c) == Object && parse(cells).Some? {
        assert IsDatetimeColumn(cells, parse(cells).value);
      }
    }
  }
}
