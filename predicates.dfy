/** The row predicates the filter builds from the user's choices
    (`isin`, inclusive `between` on numbers and on time stamps, and
    `str.contains`), and boolean-mask selection of rows by them. */
module Predicates {
  import opened Tables

  /** The regular-expression engine behind `str.contains`, left
      uninterpreted: whether a pattern compiles, and whether it is found
      in a string (`re.search`). */
  datatype RegexEngine = RegexEngine(compiles: string -> bool, search: (string, string) -> bool)

  datatype Pred =
    | IsIn(column: string, values: set<Cell>)
    | Between(column: string, lo: real, hi: real)
    | TimeBetween(column: string, start: int, end: int)
    | Contains(column: string, pattern: string)

  /** The mask value of predicate `p` on row `r`. `between` is false on a
      missing cell; `isin` compares cells, so a missing cell is kept when
      missing is among the values. */
  predicate Holds(p: Pred, r: Row, re: RegexEngine) {
    match p
    case IsIn(c, vs) => At(r, c) in vs
    case Between(c, lo, hi) => At(r, c).Num? && lo <= At(r, c).num <= hi
    case TimeBetween(c, s, e) => At(r, c).Stamp? && s <= At(r, c).time <= e
    case Contains(c, pat) => At(r, c).Str? && re.search(pat, At(r, c).text)
  }

  /** A mask value reads only the cell of the predicate's own column: two
      rows that agree there get the same mask value. */
  lemma HoldsOnItsColumn(p: Pred, r1: Row, r2: Row, re: RegexEngine)
    requires At(r1, p.column) == At(r2, p.column)
    ensures Holds(p, r1, re) == Holds(p, r2, re)
  {
  }

  /** The columns the predicates of `ps` test, in order. */
  function PredColumns(ps: seq<Pred>): seq<string>
    decreases |ps|
  {
    if ps == [] then [] else [ps[0].column] + PredColumns(ps[1..])
  }

  /** Every predicate of `ps` holds on `r`: their conjunction. */
  predicate AllHold(ps: seq<Pred>, r: Row, re: RegexEngine) {
    forall j :: 0 <= j < |ps| ==> Holds(ps[j], r, re)
  }

  /** `df[mask]` for the mask of `p`: the rows on which `p` holds, in order,
      each as often as it occurs (duplicate rows are all kept or all dropped). */
  function Keep(rows: seq<Row>, p: Pred, re: RegexEngine): (kept: seq<Row>)
    ensures IsSubsequence(kept, rows)
    ensures forall x :: x in kept <==> x in rows && Holds(p, x, re)
    ensures forall x {:trigger multiset(kept)[x]} :: multiset(kept)[x] == if Holds(p, x, re) then multiset(rows)[x] else 0
  {
    if rows == [] then []
    else
      var rest := Keep(rows[1..], p, re);
      assert forall x :: x in rows <==> x == rows[0] || x in rows[1..];
      assert rows == [rows[0]] + rows[1..];
      if Holds(p, rows[0], re) then
        assert ([rows[0]] + rest)[1..] == rest;
        [rows[0]] + rest
      else rest
  }

  /** The rows on which all of `ps` hold, in order and with their
      multiplicities: one selection by the conjunction of the predicates. */
  function KeepAll(rows: seq<Row>, ps: seq<Pred>, re: RegexEngine): (kept: seq<Row>)
    ensures IsSubsequence(kept, rows)
    ensures forall x :: x in kept <==> x in rows && AllHold(ps, x, re)
    ensures forall x {:trigger multiset(kept)[x]} :: multiset(kept)[x] == if AllHold(ps, x, re) then multiset(rows)[x] else 0
  {
    if rows == [] then []
    else
      var rest := KeepAll(rows[1..], ps, re);
      assert forall x :: x in rows <==> x == rows[0] || x in rows[1..];
      assert rows == [rows[0]] + rows[1..];
      if AllHold(ps, rows[0], re) then
        assert ([rows[0]] + rest)[1..] == rest;
        [rows[0]] + rest
      else rest
  }

  /** Selecting by the new predicate after selecting by the earlier ones is
      selecting once by the conjunction of all of them. */
  lemma {:induction false} KeepAfterKeepAll(rows: seq<Row>, ps: seq<Pred>, p: Pred, re: RegexEngine)
    ensures Keep(KeepAll(rows, ps, re), p, re) == KeepAll(rows, ps + [p], re)
  {
    if rows != [] {
      KeepAfterKeepAll(rows[1..], ps, p, re);
      var r := rows[0];
      assert AllHold(ps + [p], r, re) <==> AllHold(ps, r, re) && Holds(p, r, re) by {
        assert forall j :: 0 <= j < |ps| ==> (ps + [p])[j] == ps[j];
        assert (ps + [p])[|ps|] == p;
      }
      var rest := KeepAll(rows[1..], ps, re);
      if AllHold(ps, r, re) {
        assert KeepAll(rows, ps, re) == [r] + rest;
        assert ([r] + rest)[1..] == rest;
      }
    }
  }

  /** With no predicate, the conjunction keeps every row. */
  lemma {:induction false} KeepAllNone(rows: seq<Row>, re: RegexEngine)
    ensures KeepAll(rows, [], re) == rows
  {
    if rows != [] {
      KeepAllNone(rows[1..], re);
      assert rows == [rows[0]] + rows[1..];
    }
  }

  /** A selection leaves the rows as they are exactly when the predicate
      holds on every row. */
  lemma KeepIsIdentity(rows: seq<Row>, p: Pred, re: RegexEngine)
    ensures Keep(rows, p, re) == rows <==> forall i :: 0 <= i < |rows| ==> Holds(p, rows[i], re)
  {
    if forall i :: 0 <= i < |rows| ==> Holds(p, rows[i], re) {
      KeepKeepsAll(rows, p, re);
    } else {
      var i :| 0 <= i < |rows| && !Holds(p, rows[i], re);
      assert rows[i] !in Keep(rows, p, re);
    }
  }

  /** A predicate that holds on every row keeps every row. */
  lemma {:induction false} KeepKeepsAll(rows: seq<Row>, p: Pred, re: RegexEngine)
    requires forall i :: 0 <= i < |rows| ==> Holds(p, rows[i], re)
    ensures Keep(rows, p, re) == rows
  {
    if rows != [] {
      assert forall i :: 1 <= i < |rows| ==> rows[i] == rows[1..][i - 1];
      KeepKeepsAll(rows[1..], p, re);
      assert rows == [rows[0]] + rows[1..];
    }
  }

  /** When every row satisfies the conjunction, selecting by it keeps every row. */
  lemma {:induction false} KeepAllIsIdentity(rows: seq<Row>, ps: seq<Pred>, re: RegexEngine)
    requires forall i :: 0 <= i < |rows| ==> AllHold(ps, rows[i], re)
    ensures KeepAll(rows, ps, re) == rows
  {
    if rows != [] {
      assert forall i :: 1 <= i < |rows| ==> rows[i] == rows[1..][i - 1];
      KeepAllIsIdentity(rows[1..], ps, re);
      assert rows == [rows[0]] + rows[1..];
    }
  }
}
