/** `filter_dataframe`: an opt-in, type-driven filter over a data frame.
    Each column the user picks is classified (categorical, numeric,
    date-time or text), offered a widget whose default selects everything,
    and the user's answer narrows the working frame before the next column
    is classified. Widget answers are parameters: the "Add filters" flag,
    the ordered list of picked columns, and one `Choice` per column. */
module Filter {
  import opened Tables
  import opened Predicates
  import opened Normalization
  import opened Frames

  /** Columns with fewer distinct values than this are treated as categorical. */
  const CategoricalThreshold: nat := 20
  /** The numeric slider divides its range into this many steps. */
  const SliderSteps: nat := 100
  const SecondsPerDay: nat := 86400

  datatype Kind = CategoricalKind | NumericKind | DateKind | TextKind

  /** What one column's widget returns: the multiselect's value set, the
      slider's pair, the date picker's dates (zero, one or two days, as day
      numbers) and the text box's pattern. Only the field of the column's
      kind is read. */
  datatype Choice = Choice(values: set<Cell>, lo: real, hi: real, dates: seq<int>, pattern: string)

  /** Exceptions that escape the filter and abort it, in the order
      `df[column].str.contains(pattern)` raises them: the `.str` accessor
      refuses a column without string values, the pattern does not compile,
      or the mask is not all booleans because the column holds a non-string
      value. */
  datatype FilterError =
    | StrAccessorRefused(column: string)
    | InvalidPattern(column: string)
    | NonTextValue(column: string)

  datatype Result<T> = Ok(value: T) | Err(error: FilterError)

  /** The column-kind dispatch, in the order the branches are tried. */
  function KindOf(t: Table, c: string): (k: Kind)
    ensures k == CategoricalKind <==> DtypeOf(t, c) == Categorical || NUnique(t.rows, c) < CategoricalThreshold
    ensures k == NumericKind <==> DtypeOf(t, c) == Numeric && NUnique(t.rows, c) >= CategoricalThreshold
    ensures k == DateKind <==> DtypeOf(t, c).DateTime? && NUnique(t.rows, c) >= CategoricalThreshold
    ensures k == TextKind <==> DtypeOf(t, c) == Object && NUnique(t.rows, c) >= CategoricalThreshold
  {
    if DtypeOf(t, c) == Categorical || NUnique(t.rows, c) < CategoricalThreshold then CategoricalKind
    else if DtypeOf(t, c) == Numeric then NumericKind
    else if DtypeOf(t, c).DateTime? then DateKind
    else TextKind
  }

  /** A day number as the timestamp of its midnight (`pd.to_datetime` of a date). */
  function Midnight(day: int): int {
    day * SecondsPerDay
  }

  /** The calendar day of a timestamp (what the date picker shows). */
  function Day(time: int): (d: int)
    ensures Midnight(d) <= time < Midnight(d) + SecondsPerDay
  {
    time / SecondsPerDay
  }

  /** The slider's step: its range in `SliderSteps` equal parts. A
      single-valued column gives a zero step and no division by zero. */
  function SliderStep(lo: real, hi: real): (step: real)
    ensures lo + SliderSteps as real * step == hi
    ensures step == 0.0 <==> lo == hi
    ensures lo <= hi ==> step >= 0.0
  {
    (hi - lo) / SliderSteps as real
  }

  datatype Slider = Slider(min: real, max: real, step: real)

  /** The numeric slider: bounds are the column's minimum and maximum.
      There is none for a column without any number. */
  function NumericSlider(rows: seq<Row>, c: string): (s: Option<Slider>)
    ensures s.Some? <==> Numbers(rows, c) != []
    ensures s.Some? ==> s.value.min <= s.value.max && s.value.step >= 0.0
    ensures s.Some? ==> s.value.min + SliderSteps as real * s.value.step == s.value.max
    ensures s.Some? ==> s.value.min in Numbers(rows, c) && s.value.max in Numbers(rows, c)
    ensures s.Some? ==> forall i :: 0 <= i < |rows| && At(rows[i], c).Num? ==>
                          s.value.min <= At(rows[i], c).num <= s.value.max
  {
    var xs := Numbers(rows, c);
    if xs == [] then None
    else
      var lo, hi := MinReal(xs), MaxReal(xs);
      assert forall i :: 0 <= i < |rows| && At(rows[i], c).Num? ==> At(rows[i], c).num in xs;
      Some(Slider(lo, hi, SliderStep(lo, hi)))
  }

  /** The date picker's default: the days of the column's first and last
      time stamps. */
  function DateDefault(rows: seq<Row>, c: string): (days: seq<int>)
    ensures days == [] <==> Times(rows, c) == []
    ensures days != [] ==> |days| == 2 && days[0] <= days[1]
    ensures days != [] ==> forall i :: 0 <= i < |rows| && At(rows[i], c).Stamp? ==>
                             Midnight(days[0]) <= At(rows[i], c).time < Midnight(days[1]) + SecondsPerDay
    ensures days != [] ==> exists i :: 0 <= i < |rows| && At(rows[i], c).Stamp? &&
                             At(rows[i], c).time < Midnight(days[0]) + SecondsPerDay
    ensures days != [] ==> exists i :: 0 <= i < |rows| && At(rows[i], c).Stamp? &&
                             Midnight(days[1]) <= At(rows[i], c).time
  {
    var ts := Times(rows, c);
    if ts == [] then []
    else
      var lo, hi := Earliest(ts), Latest(ts);
      assert Midnight(Day(lo)) <= lo <= hi < Midnight(Day(hi)) + SecondsPerDay;
      assert forall i :: 0 <= i < |rows| && At(rows[i], c).Stamp? ==> At(rows[i], c).time in ts;
      assert exists i :: 0 <= i < |rows| && At(rows[i], c) == Stamp(lo);
      assert exists i :: 0 <= i < |rows| && At(rows[i], c) == Stamp(hi);
      [Day(lo), Day(hi)]
  }

  /** Every widget at its default for column `c` of the current table. */
  function DefaultChoice(t: Table, c: string): Choice {
    var s := NumericSlider(t.rows, c);
    Choice(Unique(t.rows, c),
           if s.Some? then s.value.min else 0.0,
           if s.Some? then s.value.max else 0.0,
           DateDefault(t.rows, c),
           "")
  }

  /** The defaults are meant to select everything: all of the column's
      values, its whole numeric range between attained bounds, the days of
      its first and last time stamps, and no pattern. */
  lemma DefaultChoiceCovers(t: Table, c: string)
    ensures forall v :: v in DefaultChoice(t, c).values <==> exists i :: 0 <= i < |t.rows| && At(t.rows[i], c) == v
    ensures Numbers(t.rows, c) != [] ==>
              DefaultChoice(t, c).lo in Numbers(t.rows, c) && DefaultChoice(t, c).hi in Numbers(t.rows, c)
    ensures forall i :: 0 <= i < |t.rows| && At(t.rows[i], c).Num? ==>
              DefaultChoice(t, c).lo <= At(t.rows[i], c).num <= DefaultChoice(t, c).hi
    ensures DefaultChoice(t, c).dates == [] <==> Times(t.rows, c) == []
    ensures DefaultChoice(t, c).dates != [] ==> |DefaultChoice(t, c).dates| == 2
    ensures DefaultChoice(t, c).dates != [] ==>
              forall i :: 0 <= i < |t.rows| && At(t.rows[i], c).Stamp? ==>
                Midnight(DefaultChoice(t, c).dates[0]) <= At(t.rows[i], c).time < Midnight(DefaultChoice(t, c).dates[1]) + SecondsPerDay
    ensures DefaultChoice(t, c).pattern == ""
  {
    assert forall i :: 0 <= i < |t.rows| && At(t.rows[i], c).Num? ==> At(t.rows[i], c).num in Numbers(t.rows, c);
  }

  predicate AllText(cells: seq<Cell>) {
    forall i :: 0 <= i < |cells| ==> cells[i].Str?
  }

  /** A picked day converts to its own midnight and back to the same day. */
  lemma DayOfMidnight(day: int)
    ensures Day(Midnight(day)) == day
    ensures Midnight(day) + SecondsPerDay == Midnight(day + 1)
  {
  }

  /** The `.str` accessor refuses a column whose non-missing values, of
      which there is at least one, are all numbers or all time stamps: pandas
      infers a non-string type for it. A column holding some string, or a
      mix of numbers and time stamps, is accepted. */
  predicate StrAccessorRefuses(cells: seq<Cell>) {
    && (exists i :: 0 <= i < |cells| && cells[i] != Missing)
    && (|| (forall i :: 0 <= i < |cells| ==> cells[i].Num? || cells[i] == Missing)
        || (forall i :: 0 <= i < |cells| ==> cells[i].Stamp? || cells[i] == Missing))
  }

  /** A column the `.str` accessor refuses holds no string at all, so it
      would also fail the all-strings mask test that follows. */
  lemma RefusedColumnHasNoString(cells: seq<Cell>)
    requires StrAccessorRefuses(cells)
    ensures forall i :: 0 <= i < |cells| ==> !cells[i].Str?
    ensures !AllText(cells)
  {
  }

  /** The predicate one column's widget answer selects by, classified on the
      current table `t`: `None` when the step leaves the table as it is
      (a date answer that is not two dates, an empty pattern). */
  function StepPred(t: Table, c: string, ch: Choice, re: RegexEngine): (r: Result<Option<Pred>>)
    ensures r.Ok? && r.value.Some? ==> r.value.value.column == c
    ensures r.Err? ==> r.error.column == c
    ensures r == Ok(None) <==> || (KindOf(t, c) == DateKind && |ch.dates| != 2)
                               || (KindOf(t, c) == TextKind && ch.pattern == "")
    ensures r.Err? <==> KindOf(t, c) == TextKind && ch.pattern != "" &&
                        (!re.compiles(ch.pattern) || !AllText(ColumnOf(t.rows, c)))
  {
    match KindOf(t, c)
    case CategoricalKind => Ok(Some(IsIn(c, ch.values)))
    case NumericKind => Ok(Some(Between(c, ch.lo, ch.hi)))
    case DateKind =>
      if |ch.dates| == 2 then Ok(Some(TimeBetween(c, Midnight(ch.dates[0]), Midnight(ch.dates[1]))))
      else Ok(None)
    case TextKind =>
      var cells := ColumnOf(t.rows, c);
      if ch.pattern == "" then Ok(None)
      else if StrAccessorRefuses(cells) then Err(StrAccessorRefused(c))
      else if !re.compiles(ch.pattern) then Err(InvalidPattern(c))
      else if !AllText(cells) then Err(NonTextValue(c))
      else Ok(Some(Contains(c, ch.pattern)))
  }

  /** `t` narrowed to the rows `p` holds on. */
  function Narrow(t: Table, p: Pred, re: RegexEngine): Table {
    t.(rows := Keep(t.rows, p, re))
  }

  /** `t` narrowed to the rows all of `ps` hold on. */
  function NarrowAll(t: Table, ps: seq<Pred>, re: RegexEngine): Table {
    t.(rows := KeepAll(t.rows, ps, re))
  }

  /** One iteration of the narrowing loop on column `c` of the current
      table: it keeps the columns and dtypes and a subsequence of the rows,
      and a date answer that is not two dates or an empty pattern keeps the
      table as it is. */
  function Step(t: Table, c: string, ch: Choice, re: RegexEngine): (r: Result<Table>)
    ensures r.Ok? ==> r.value.columns == t.columns && r.value.dtypes == t.dtypes
    ensures r.Ok? ==> IsSubsequence(r.value.rows, t.rows)
    ensures KindOf(t, c) == DateKind && |ch.dates| != 2 ==> r == Ok(t)
    ensures KindOf(t, c) == TextKind && ch.pattern == "" ==> r == Ok(t)
    ensures r.Err? <==> KindOf(t, c) == TextKind && ch.pattern != "" &&
                        (!re.compiles(ch.pattern) || !AllText(ColumnOf(t.rows, c)))
  {
    match StepPred(t, c, ch, re)
    case Err(e) => Err(e)
    case Ok(None) => SubsequenceOfItself(t.rows); Ok(t)
    case Ok(Some(p)) => Ok(Narrow(t, p, re))
  }

  /** A categorical step keeps exactly the rows whose value is among the
      selected values (`isin`). */
  lemma StepCategorical(t: Table, c: string, ch: Choice, re: RegexEngine)
    requires KindOf(t, c) == CategoricalKind
    ensures Step(t, c, ch, re) == Ok(Narrow(t, IsIn(c, ch.values), re))
    ensures forall x :: x in Step(t, c, ch, re).value.rows <==> x in t.rows && At(x, c) in ch.values
    ensures forall x :: multiset(Step(t, c, ch, re).value.rows)[x] ==
                          if At(x, c) in ch.values then multiset(t.rows)[x] else 0
  {
  }

  /** A numeric step keeps exactly the rows whose number lies in the
      chosen range, both ends included (`between`). */
  lemma StepNumeric(t: Table, c: string, ch: Choice, re: RegexEngine)
    requires KindOf(t, c) == NumericKind
    ensures Step(t, c, ch, re) == Ok(Narrow(t, Between(c, ch.lo, ch.hi), re))
    ensures forall x :: x in Step(t, c, ch, re).value.rows <==>
                          x in t.rows && At(x, c).Num? && ch.lo <= At(x, c).num <= ch.hi
    ensures forall x :: multiset(Step(t, c, ch, re).value.rows)[x] ==
                          if At(x, c).Num? && ch.lo <= At(x, c).num <= ch.hi then multiset(t.rows)[x] else 0
  {
  }

  /** A date step with two dates keeps exactly the rows whose time stamp
      lies between the midnights of the two days, both included. */
  lemma StepDate(t: Table, c: string, ch: Choice, re: RegexEngine)
    requires KindOf(t, c) == DateKind && |ch.dates| == 2
    ensures Step(t, c, ch, re) == Ok(Narrow(t, TimeBetween(c, Midnight(ch.dates[0]), Midnight(ch.dates[1])), re))
    ensures forall x :: x in Step(t, c, ch, re).value.rows <==>
                          x in t.rows && At(x, c).Stamp? &&
                          Midnight(ch.dates[0]) <= At(x, c).time <= Midnight(ch.dates[1])
    ensures forall x :: multiset(Step(t, c, ch, re).value.rows)[x] ==
                          if At(x, c).Stamp? && Midnight(ch.dates[0]) <= At(x, c).time <= Midnight(ch.dates[1])
                          then multiset(t.rows)[x] else 0
  {
  }

  /** A text step with a pattern fails, in the order `str.contains` raises:
      when the `.str` accessor refuses the column, when the pattern does not
      compile, and when some row of the column holds a non-string.
      Otherwise it keeps exactly the rows in which the pattern is found. */
  lemma StepText(t: Table, c: string, ch: Choice, re: RegexEngine)
    requires KindOf(t, c) == TextKind && ch.pattern != ""
    ensures StrAccessorRefuses(ColumnOf(t.rows, c)) ==> Step(t, c, ch, re) == Err(StrAccessorRefused(c))
    ensures !StrAccessorRefuses(ColumnOf(t.rows, c)) && !re.compiles(ch.pattern) ==>
              Step(t, c, ch, re) == Err(InvalidPattern(c))
    ensures !StrAccessorRefuses(ColumnOf(t.rows, c)) && re.compiles(ch.pattern) &&
            (exists x :: x in t.rows && !At(x, c).Str?) ==>
              Step(t, c, ch, re) == Err(NonTextValue(c))
    ensures Step(t, c, ch, re).Ok? ==> Step(t, c, ch, re) == Ok(Narrow(t, Contains(c, ch.pattern), re))
    ensures Step(t, c, ch, re).Ok? ==>
              forall x :: x in Step(t, c, ch, re).value.rows <==>
                            x in t.rows && re.search(ch.pattern, At(x, c).text)
    ensures Step(t, c, ch, re).Ok? ==>
              forall x :: multiset(Step(t, c, ch, re).value.rows)[x] ==
                            if At(x, c).Str? && re.search(ch.pattern, At(x, c).text) then multiset(t.rows)[x] else 0
  {
    var cells := ColumnOf(t.rows, c);
    if exists x :: x in t.rows && !At(x, c).Str? {
      var x :| x in t.rows && !At(x, c).Str?;
      var i :| 0 <= i < |t.rows| && t.rows[i] == x;
      assert !cells[i].Str?;
    }
    if Step(t, c, ch, re).Ok? {
      assert AllText(cells);
      forall x | x in t.rows
        ensures At(x, c).Str?
      {
        var i :| 0 <= i < |t.rows| && t.rows[i] == x;
        assert cells[i].Str?;
      }
    }
  }

  /** In a well-typed table, a numeric column has a slider and a date-time
      column has default dates: reaching those branches takes at least
      `CategoricalThreshold` distinct non-missing values. */
  lemma KindHasRange(t: Table, c: string)
    requires WellTyped(t)
    ensures KindOf(t, c) == NumericKind ==> NumericSlider(t.rows, c).Some?
    ensures KindOf(t, c) == DateKind ==> DateDefault(t.rows, c) != []
  {
    var k := KindOf(t, c);
    if k == NumericKind || k == DateKind {
      assert |Unique(t.rows, c) - {Missing}| > 0;
      var v :| v in Unique(t.rows, c) - {Missing};
      var i :| 0 <= i < |t.rows| && At(t.rows[i], c) == v;
      assert CellFits(DtypeOf(t, c), At(t.rows[i], c));
      if k == NumericKind {
        assert v.num in Numbers(t.rows, c);
      } else {
        assert v.time in Times(t.rows, c);
      }
    }
  }

  /** In a well-typed table the numeric branch always has a proper range:
      reaching it takes at least `CategoricalThreshold` distinct numbers, so
      the minimum is below the maximum and the slider's step is positive. */
  lemma NumericRangeNonEmpty(t: Table, c: string)
    requires WellTyped(t) && KindOf(t, c) == NumericKind
    ensures NumericSlider(t.rows, c).Some?
    ensures NumericSlider(t.rows, c).value.min < NumericSlider(t.rows, c).value.max
    ensures NumericSlider(t.rows, c).value.step > 0.0
  {
    var x, y := TwoNumbers(t, c);
    var s := NumericSlider(t.rows, c).value;
    assert s.min <= x <= s.max && s.min <= y <= s.max by {
      var i :| 0 <= i < |t.rows| && At(t.rows[i], c) == Num(x);
      var j :| 0 <= j < |t.rows| && At(t.rows[j], c) == Num(y);
    }
  }

  /** A well-typed numeric column with two distinct non-missing values holds
      two different numbers. */
  lemma TwoNumbers(t: Table, c: string) returns (x: real, y: real)
    requires WellTyped(t) && DtypeOf(t, c) == Numeric && NUnique(t.rows, c) >= 2
    ensures x in Numbers(t.rows, c) && y in Numbers(t.rows, c) && x != y
  {
    var vals := Unique(t.rows, c) - {Missing};
    var v :| v in vals;
    assert |vals - {v}| == |vals| - 1;
    var w :| w in vals - {v};
    var i :| 0 <= i < |t.rows| && At(t.rows[i], c) == v;
    var j :| 0 <= j < |t.rows| && At(t.rows[j], c) == w;
    assert CellFits(DtypeOf(t, c), At(t.rows[i], c));
    assert CellFits(DtypeOf(t, c), At(t.rows[j], c));
    x, y := v.num, w.num;
  }

  /** The numeric slider's default (minimum, maximum) keeps exactly the
      rows that have a number in the column: all of them but the missing. */
  lemma NumericDefaultKeepsNonMissing(t: Table, c: string, re: RegexEngine)
    requires KindOf(t, c) == NumericKind
    ensures Step(t, c, DefaultChoice(t, c), re).Ok?
    ensures forall x :: x in Step(t, c, DefaultChoice(t, c), re).value.rows <==> x in t.rows && At(x, c).Num?
    ensures forall x :: multiset(Step(t, c, DefaultChoice(t, c), re).value.rows)[x] ==
                          if At(x, c).Num? then multiset(t.rows)[x] else 0
  {
    var ch := DefaultChoice(t, c);
    var p := Between(c, ch.lo, ch.hi);
    assert Step(t, c, ch, re) == Ok(Narrow(t, p, re)) by { StepNumeric(t, c, ch, re); }
    assert forall i :: 0 <= i < |t.rows| && At(t.rows[i], c).Num? ==> ch.lo <= At(t.rows[i], c).num <= ch.hi by {
      DefaultChoiceCovers(t, c);
    }
    RangeCoversAll(t.rows, c, ch.lo, ch.hi, re);
  }

  /** A range that holds every number of the column does not constrain
      `between`: it keeps exactly the rows that have a number. */
  lemma RangeCoversAll(rows: seq<Row>, c: string, lo: real, hi: real, re: RegexEngine)
    requires forall i :: 0 <= i < |rows| && At(rows[i], c).Num? ==> lo <= At(rows[i], c).num <= hi
    ensures forall x :: x in Keep(rows, Between(c, lo, hi), re) <==> x in rows && At(x, c).Num?
    ensures forall x :: multiset(Keep(rows, Between(c, lo, hi), re))[x] ==
                          if At(x, c).Num? then multiset(rows)[x] else 0
  {
    var kept := Keep(rows, Between(c, lo, hi), re);
    forall x
      ensures x in kept <==> x in rows && At(x, c).Num?
      ensures multiset(kept)[x] == if At(x, c).Num? then multiset(rows)[x] else 0
    {
      if x in rows {
        var i :| 0 <= i < |rows| && rows[i] == x;
      } else {
        assert multiset(rows)[x] == 0;
      }
    }
  }

  /** Hence, on a numeric column without missing values, the default range
      changes nothing. */
  lemma NumericDefaultKeepsAll(t: Table, c: string, re: RegexEngine)
    requires KindOf(t, c) == NumericKind
    requires forall i :: 0 <= i < |t.rows| ==> At(t.rows[i], c).Num?
    ensures Step(t, c, DefaultChoice(t, c), re) == Ok(t)
  {
    var ch := DefaultChoice(t, c);
    assert Step(t, c, ch, re) == Ok(Narrow(t, Between(c, ch.lo, ch.hi), re)) by { StepNumeric(t, c, ch, re); }
    assert forall i :: 0 <= i < |t.rows| && At(t.rows[i], c).Num? ==> ch.lo <= At(t.rows[i], c).num <= ch.hi by {
      DefaultChoiceCovers(t, c);
    }
    FullRangeIsIdentity(t, c, ch.lo, ch.hi, re);
  }

  /** A range holding every cell of a column with no missing value keeps
      the whole table. */
  lemma FullRangeIsIdentity(t: Table, c: string, lo: real, hi: real, re: RegexEngine)
    requires forall i :: 0 <= i < |t.rows| ==> At(t.rows[i], c).Num?
    requires forall i :: 0 <= i < |t.rows| && At(t.rows[i], c).Num? ==> lo <= At(t.rows[i], c).num <= hi
    ensures Narrow(t, Between(c, lo, hi), re) == t
  {
    KeepKeepsAll(t.rows, Between(c, lo, hi), re);
  }

  /** The default answer for column `c` is known to keep every row of `t`:
      categorical and text columns, and numeric columns without missing
      values. */
  predicate DefaultIsNoOp(t: Table, c: string) {
    || KindOf(t, c) == CategoricalKind
    || KindOf(t, c) == TextKind
    || (KindOf(t, c) == NumericKind && forall i :: 0 <= i < |t.rows| ==> At(t.rows[i], c).Num?)
  }

  /** Those defaults change nothing: the full value set keeps every row,
      an empty pattern filters nothing, and the full range keeps every row
      of a numeric column without missing values. */
  lemma DefaultKeepsAll(t: Table, c: string, re: RegexEngine)
    requires DefaultIsNoOp(t, c)
    ensures Step(t, c, DefaultChoice(t, c), re) == Ok(t)
  {
    if KindOf(t, c) == CategoricalKind {
      var p := IsIn(c, Unique(t.rows, c));
      assert forall i :: 0 <= i < |t.rows| ==> Holds(p, t.rows[i], re);
      KeepIsIdentity(t.rows, p, re);
    } else if KindOf(t, c) == NumericKind {
      NumericDefaultKeepsAll(t, c, re);
    }
  }

  /** The date picker's default goes through whole days, so it keeps
      exactly the rows with a time stamp no later than midnight at the
      start of the last day. */
  lemma DateDefaultKeeps(t: Table, c: string, re: RegexEngine)
    requires WellTyped(t) && KindOf(t, c) == DateKind
    ensures Times(t.rows, c) != []
    ensures Step(t, c, DefaultChoice(t, c), re).Ok?
    ensures forall x :: x in Step(t, c, DefaultChoice(t, c), re).value.rows <==>
                          x in t.rows && At(x, c).Stamp? &&
                          At(x, c).time <= Midnight(Day(Latest(Times(t.rows, c))))
    ensures forall x :: multiset(Step(t, c, DefaultChoice(t, c), re).value.rows)[x] ==
                          if At(x, c).Stamp? && At(x, c).time <= Midnight(Day(Latest(Times(t.rows, c))))
                          then multiset(t.rows)[x] else 0
  {
    KindHasRange(t, c);
    var ch := DefaultChoice(t, c);
    var ts := Times(t.rows, c);
    assert ch.dates == [Day(Earliest(ts)), Day(Latest(ts))];
    var start, end := Midnight(ch.dates[0]), Midnight(ch.dates[1]);
    assert Step(t, c, ch, re) == Ok(Narrow(t, TimeBetween(c, start, end), re)) by { StepDate(t, c, ch, re); }
    assert forall i :: 0 <= i < |t.rows| && At(t.rows[i], c).Stamp? ==> start <= At(t.rows[i], c).time by {
      DefaultChoiceCovers(t, c);
    }
    LowerBoundBelowAll(t.rows, c, start, end, re);
  }

  /** A lower bound at or below every time stamp of the column does not
      constrain `between`: only the upper bound selects. */
  lemma LowerBoundBelowAll(rows: seq<Row>, c: string, start: int, end: int, re: RegexEngine)
    requires forall i :: 0 <= i < |rows| && At(rows[i], c).Stamp? ==> start <= At(rows[i], c).time
    ensures forall x :: x in Keep(rows, TimeBetween(c, start, end), re) <==>
                          x in rows && At(x, c).Stamp? && At(x, c).time <= end
    ensures forall x :: multiset(Keep(rows, TimeBetween(c, start, end), re))[x] ==
                          if At(x, c).Stamp? && At(x, c).time <= end then multiset(rows)[x] else 0
  {
    var kept := Keep(rows, TimeBetween(c, start, end), re);
    forall x
      ensures x in kept <==> x in rows && At(x, c).Stamp? && At(x, c).time <= end
      ensures multiset(kept)[x] == if At(x, c).Stamp? && At(x, c).time <= end then multiset(rows)[x] else 0
    {
      if x in rows {
        var i :| 0 <= i < |rows| && rows[i] == x;
      } else {
        assert multiset(rows)[x] == 0;
      }
    }
  }

  /** So the date default is not a no-op: when the latest time stamp is not
      at midnight, its row is dropped. */
  lemma DateDefaultDropsLastDay(t: Table, c: string, re: RegexEngine)
    requires WellTyped(t) && KindOf(t, c) == DateKind
    requires Times(t.rows, c) != [] && Latest(Times(t.rows, c)) % SecondsPerDay != 0
    ensures Step(t, c, DefaultChoice(t, c), re) != Ok(t)
  {
    var latest := Latest(Times(t.rows, c));
    DateDefaultKeeps(t, c, re);
    var i :| 0 <= i < |t.rows| && At(t.rows[i], c) == Stamp(latest);
    assert Midnight(Day(latest)) < latest;
    assert t.rows[i] !in Step(t, c, DefaultChoice(t, c), re).value.rows;
  }

  /** `ps` followed by the predicates of `r`, or `r`'s error. */
  function Then(ps: seq<Pred>, r: Result<seq<Pred>>): Result<seq<Pred>> {
    match r
    case Ok(qs) => Ok(ps + qs)
    case Err(e) => Err(e)
  }

  /** The predicates the narrowing loop applies, in order, to the columns
      `cols` starting from table `t`: each column is classified on the
      table narrowed by the predicates before it. */
  function Plan(t: Table, cols: seq<string>, choice: string -> Choice, re: RegexEngine): (r: Result<seq<Pred>>)
    ensures r.Ok? ==> |r.value| <= |cols|
    ensures r.Ok? ==> forall q :: q in r.value ==> q.column in cols
    ensures r.Err? ==> r.error.column in cols
    decreases |cols|
  {
    if cols == [] then Ok([])
    else
      assert forall d :: d in cols[1..] ==> d in cols;
      match StepPred(t, cols[0], choice(cols[0]), re)
      case Err(e) => Err(e)
      case Ok(None) => Plan(t, cols[1..], choice, re)
      case Ok(Some(p)) => Then([p], Plan(Narrow(t, p, re), cols[1..], choice, re))
  }

  /** The plan's predicates test the picked columns in picking order, at
      most one predicate per picked column: their columns form a
      subsequence of `cols`. */
  lemma {:induction false} PlanColumnsInOrder(t: Table, cols: seq<string>, choice: string -> Choice, re: RegexEngine)
    ensures Plan(t, cols, choice, re).Ok? ==> IsSubsequence(PredColumns(Plan(t, cols, choice, re).value), cols)
    decreases |cols|
  {
    if cols != [] {
      match StepPred(t, cols[0], choice(cols[0]), re)
      case Err(_) =>
      case Ok(None) =>
        PlanColumnsInOrder(t, cols[1..], choice, re);
      case Ok(Some(p)) =>
        var rest := Plan(Narrow(t, p, re), cols[1..], choice, re);
        PlanColumnsInOrder(Narrow(t, p, re), cols[1..], choice, re);
        if rest.Ok? {
          var ps := [p] + rest.value;
          assert ps[1..] == rest.value;
          var cs := PredColumns(ps);
          assert cs == [cols[0]] + PredColumns(rest.value);
          assert cs[1..] == PredColumns(rest.value);
        }
    }
  }

  /** The plan follows the steps of the loop: it fails exactly when the
      first column's step fails or the plan of the remaining columns fails on
      the table that step leaves. */
  lemma PlanFollowsSteps(t: Table, cols: seq<string>, choice: string -> Choice, re: RegexEngine)
    requires cols != []
    ensures Plan(t, cols, choice, re).Err? <==>
              || Step(t, cols[0], choice(cols[0]), re).Err?
              || Plan(Step(t, cols[0], choice(cols[0]), re).value, cols[1..], choice, re).Err?
  {
  }

  /** Answering every picked column with its default builds only
      predicates that hold on every row, so the table is never narrowed and
      each later column sees the same table. */
  lemma {:induction false} DefaultPlanHoldsEverywhere(t: Table, cols: seq<string>, choice: string -> Choice, re: RegexEngine)
    requires forall c :: c in cols ==> DefaultIsNoOp(t, c) && choice(c) == DefaultChoice(t, c)
    ensures Plan(t, cols, choice, re).Ok?
    ensures forall j, i :: 0 <= j < |Plan(t, cols, choice, re).value| && 0 <= i < |t.rows| ==>
                             Holds(Plan(t, cols, choice, re).value[j], t.rows[i], re)
    decreases |cols|
  {
    if cols != [] {
      var c := cols[0];
      assert c in cols;
      DefaultPredHoldsEverywhere(t, c, choice(c), re);
      assert forall d :: d in cols[1..] ==> d in cols;
      DefaultPlanHoldsEverywhere(t, cols[1..], choice, re);
      var rest := Plan(t, cols[1..], choice, re);
      var sp := StepPred(t, c, choice(c), re);
      if sp.value.Some? {
        CoveringPredicates(t.rows, sp.value.value, rest.value, re);
      }
    }
  }

  /** One column answered with its no-op default builds no predicate, or
      one that holds on every row and so leaves the table as it is. */
  lemma DefaultPredHoldsEverywhere(t: Table, c: string, ch: Choice, re: RegexEngine)
    requires DefaultIsNoOp(t, c) && ch == DefaultChoice(t, c)
    ensures StepPred(t, c, ch, re).Ok?
    ensures StepPred(t, c, ch, re).value.Some? ==>
              && Narrow(t, StepPred(t, c, ch, re).value.value, re) == t
              && forall i :: 0 <= i < |t.rows| ==> Holds(StepPred(t, c, ch, re).value.value, t.rows[i], re)
  {
    DefaultKeepsAll(t, c, re);
    var sp := StepPred(t, c, ch, re);
    if sp.Ok? && sp.value.Some? {
      assert Step(t, c, ch, re) == Ok(Narrow(t, sp.value.value, re));
      KeepIsIdentity(t.rows, sp.value.value, re);
    }
  }

  /** Putting a predicate that holds on every row in front of predicates
      that do keeps every predicate holding on every row. */
  lemma CoveringPredicates(rows: seq<Row>, p: Pred, qs: seq<Pred>, re: RegexEngine)
    requires forall i :: 0 <= i < |rows| ==> Holds(p, rows[i], re)
    requires forall j, i :: 0 <= j < |qs| && 0 <= i < |rows| ==> Holds(qs[j], rows[i], re)
    ensures forall j, i :: 0 <= j < |[p] + qs| && 0 <= i < |rows| ==> Holds(([p] + qs)[j], rows[i], re)
  {
    forall j, i | 0 <= j < |[p] + qs| && 0 <= i < |rows|
      ensures Holds(([p] + qs)[j], rows[i], re)
    {
      if j > 0 {
        assert ([p] + qs)[j] == qs[j - 1];
      }
    }
  }

  /** Picking columns and leaving every widget at its default changes
      nothing beyond the normalisation (for the kinds whose default is a
      no-op). */
  lemma DefaultsChangeNothing(t: Table, chosen: seq<string>, choice: string -> Choice,
                              parse: DateParser, re: RegexEngine)
    requires forall c :: c in chosen ==>
               DefaultIsNoOp(Normalize(t, t.columns, parse), c) &&
               choice(c) == DefaultChoice(Normalize(t, t.columns, parse), c)
    ensures FilterSpec(t, true, chosen, choice, parse, re) == Ok(Normalize(t, t.columns, parse))
  {
    var n := Normalize(t, t.columns, parse);
    DefaultPlanHoldsEverywhere(n, chosen, choice, re);
    KeepAllIsIdentity(n.rows, Plan(n, chosen, choice, re).value, re);
  }

  /** What `filter_dataframe` returns: the table itself when filtering is
      off; otherwise the normalised copy selected ONCE by the conjunction
      of the predicates the sequential loop chose, or the error it raised. */
  function FilterSpec(t: Table, addFilters: bool, chosen: seq<string>, choice: string -> Choice,
                      parse: DateParser, re: RegexEngine): (r: Result<Table>)
    ensures !addFilters ==> r == Ok(t)
    ensures addFilters && r.Ok? ==> r.value.columns == t.columns
    ensures addFilters && r.Ok? ==> IsSubsequence(r.value.rows, Normalize(t, t.columns, parse).rows)
    ensures addFilters && r.Ok? ==> r.value.dtypes == Normalize(t, t.columns, parse).dtypes
    ensures addFilters ==> (r.Ok? <==> Plan(Normalize(t, t.columns, parse), chosen, choice, re).Ok?)
    ensures addFilters && r.Ok? ==>
              forall x :: x in r.value.rows <==>
                x in Normalize(t, t.columns, parse).rows &&
                AllHold(Plan(Normalize(t, t.columns, parse), chosen, choice, re).value, x, re)
    ensures addFilters && r.Ok? ==>
              forall x :: multiset(r.value.rows)[x] ==
                if AllHold(Plan(Normalize(t, t.columns, parse), chosen, choice, re).value, x, re)
                then multiset(Normalize(t, t.columns, parse).rows)[x] else 0
  {
    if !addFilters then Ok(t)
    else
      var n := Normalize(t, t.columns, parse);
      NormalizeEffect(t, t.columns, parse);
      match Plan(n, chosen, choice, re)
      case Ok(ps) => Ok(NarrowAll(n, ps, re))
      case Err(e) => Err(e)
  }

  /** The table a filter call returned, or its error. */
  function Outcome(r: Result<DataFrame>): Result<Table>
    reads if r.Ok? then {r.value} else {}
  {
    match r
    case Ok(d) => Ok(d.Value())
    case Err(e) => Err(e)
  }

  /** `filter_dataframe(df)`. With filtering off it returns `df` itself.
      Otherwise it copies `df`, normalises the copy's columns in place, and
      narrows the working frame one picked column at a time; the loop keeps
      the working frame equal to the normalised copy selected once by the
      conjunction of the predicates applied so far. `df` is never changed. */
  method FilterDataframe(df: DataFrame, addFilters: bool, chosen: seq<string>, choice: string -> Choice,
                         parse: DateParser, re: RegexEngine) returns (r: Result<DataFrame>)
    ensures unchanged(df)
    ensures !addFilters ==> r == Ok(df)
    ensures addFilters && r.Ok? ==> fresh(r.value)
    ensures Outcome(r) == FilterSpec(df.Value(), addFilters, chosen, choice, parse, re)
  {
    if !addFilters {
      return Ok(df);
    }
    var work := df.Copy();
    NormalizeColumns(work, parse);
    ghost var norm := work.Value();
    ghost var preds: seq<Pred> := [];
    KeepAllNone(norm.rows, re);
    assert chosen[0..] == chosen;
    assert Then([], Plan(norm, chosen, choice, re)) == Plan(norm, chosen, choice, re) by {
      assert forall qs: seq<Pred> :: [] + qs == qs;
    }
    for i := 0 to |chosen|
      invariant fresh(work)
      invariant work.Value() == NarrowAll(norm, preds, re)
      invariant Then(preds, Plan(work.Value(), chosen[i..], choice, re)) == Plan(norm, chosen, choice, re)
    {
      var column := chosen[i];
      var ch := choice(column);
      assert chosen[i..][0] == column && chosen[i..][1..] == chosen[i + 1..];
      match KindOf(work.Value(), column)
      case CategoricalKind =>
        var p := IsIn(column, ch.values);
        NarrowingKeepsConjunction(norm, preds, work.Value(), p, chosen[i..], choice, re);
        work := work.Where(p, re);
        preds := preds + [p];
      case NumericKind =>
        var p := Between(column, ch.lo, ch.hi);
        NarrowingKeepsConjunction(norm, preds, work.Value(), p, chosen[i..], choice, re);
        work := work.Where(p, re);
        preds := preds + [p];
      case DateKind =>
        if |ch.dates| == 2 {
          var start, end := Midnight(ch.dates[0]), Midnight(ch.dates[1]);
          var p := TimeBetween(column, start, end);
          NarrowingKeepsConjunction(norm, preds, work.Value(), p, chosen[i..], choice, re);
          work := work.Where(p, re);
          preds := preds + [p];
        }
      case TextKind =>
        if ch.pattern != "" {
          if StrAccessorRefuses(ColumnOf(work.rows, column)) {
            return Err(StrAccessorRefused(column));
          }
          if !re.compiles(ch.pattern) {
            return Err(InvalidPattern(column));
          }
          if !AllText(ColumnOf(work.rows, column)) {
            return Err(NonTextValue(column));
          }
          var p := Contains(column, ch.pattern);
          NarrowingKeepsConjunction(norm, preds, work.Value(), p, chosen[i..], choice, re);
          work := work.Where(p, re);
          preds := preds + [p];
        }
    }
    assert chosen[|chosen|..] == [];
    assert preds + [] == preds;
    return Ok(work);
  }

  /** The step that keeps the narrowing loop's invariant: when the next
      column selects by `p`, narrowing the conjunction's selection by `p` is
      the selection by the longer conjunction, and the predicates still to
      come are the rest of the plan. */
  lemma NarrowingKeepsConjunction(norm: Table, preds: seq<Pred>, t: Table, p: Pred,
                                  cols: seq<string>, choice: string -> Choice, re: RegexEngine)
    requires t == NarrowAll(norm, preds, re)
    requires cols != [] && StepPred(t, cols[0], choice(cols[0]), re) == Ok(Some(p))
    ensures Narrow(t, p, re) == NarrowAll(norm, preds + [p], re)
    ensures Then(preds, Plan(t, cols, choice, re)) == Then(preds + [p], Plan(Narrow(t, p, re), cols[1..], choice, re))
  {
    KeepAfterKeepAll(norm.rows, preds, p, re);
    var rest := Plan(Narrow(t, p, re), cols[1..], choice, re);
    assert Plan(t, cols, choice, re) == Then([p], rest);
    ThenAppend(preds, p, rest);
  }

  /** Extending the applied predicates by one moves it from the plan's head. */
  lemma ThenAppend(ps: seq<Pred>, p: Pred, r: Result<seq<Pred>>)
    ensures Then(ps, Then([p], r)) == Then(ps + [p], r)
  {
    if r.Ok? {
      assert (ps + [p]) + r.value == ps + ([p] + r.value);
    }
  }

  /** The normalisation loop `for col in df.columns: ...`, run in place on
      the copied frame. */
  method NormalizeColumns(work: DataFrame, parse: DateParser)
    modifies work
    ensures work.Value() == Normalize(old(work.Value()), old(work.columns), parse)
  {
    var cols := work.columns;
    ghost var start := work.Value();
    for i := 0 to |cols|
      invariant work.columns == cols && |work.rows| == |start.rows|
      invariant Normalize(work.Value(), cols[i..], parse) == Normalize(start, cols, parse)
    {
      var col := cols[i];
      ghost var before := work.Value();
      if DtypeOf(work.Value(), col) == Object {
        var converted := parse(ColumnOf(work.rows, col));
        if converted.Some? {
          work.Assign(col, converted.value, DateTime(false));
        }
      }
      if DtypeOf(work.Value(), col).DateTime? {
        work.Assign(col, ColumnOf(work.rows, col), DateTime(false));
      }
      assert work.Value() == NormalizeColumn(before, col, parse);
      assert cols[i..][1..] == cols[i + 1..];
    }
    assert cols[|cols|..] == [];
  }
}
