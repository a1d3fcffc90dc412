/** The mutable data frame object: `df.copy()`, in-place column
    assignment `df[col] = ...` and selection `df[mask]`, which builds a new
    frame and leaves the old one alone. */
module Frames {
  import opened Tables
  import opened Predicates

  class DataFrame {
    var columns: seq<string>
    var dtypes: map<string, Dtype>
    var rows: seq<Row>

    /** The table this frame currently holds. */
    function Value(): Table
      reads this
    {
      Table(columns, dtypes, rows)
    }

    constructor (t: Table)
      ensures Value() == t
    {
      columns, dtypes, rows := t.columns, t.dtypes, t.rows;
    }

    /** `df.copy()`: a new frame with the same contents. */
    method Copy() returns (d: DataFrame)
      ensures fresh(d) && d.Value() == Value()
    {
      d := new DataFrame(Value());
    }

    /** `df[c] = cells`, whose new dtype is `dt`. */
    method Assign(c: string, cells: seq<Cell>, dt: Dtype)
      requires |cells| == |rows|
      modifies this
      ensures Value() == WithColumn(old(Value()), c, cells, dt)
    {
      var u := WithColumn(Value(), c, cells, dt);
      columns, dtypes, rows := u.columns, u.dtypes, u.rows;
    }

    /** `df[mask]` where the mask is `p` evaluated on every row. */
    method Where(p: Pred, re: RegexEngine) returns (d: DataFrame)
      ensures fresh(d)
      ensures d.Value() == Value().(rows := Keep(rows, p, re))
    {
      d := new DataFrame(Value().(rows := Keep(rows, p, re)));
    }
  }
}
