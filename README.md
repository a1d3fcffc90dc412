# Type-driven data-frame filter of the coffee-shop reporting dashboard

The dashboard loads a spreadsheet of sales records into a pandas data frame
and lets the user narrow it before any chart is drawn. `filter_dataframe`
(app.py) does the narrowing:

1. If the "Add filters" box is not ticked, it returns the frame it was
   given, the same object.
2. Otherwise it copies the frame and normalises the copy column by column:
   an `object` column that `pd.to_datetime` converts becomes a date-time
   column (a failure is swallowed), and every date-time column loses its
   time zone.
3. Each column the user picked is then handled in the order picked. It is
   classified on the frame as narrowed so far: categorical (a `category`
   dtype, or fewer than 20 distinct non-missing values), then numeric,
   then date-time, then text. A widget for that kind is shown with a
   default meant to select everything. The user's answer becomes a row
   predicate: `isin` of a value set, an inclusive `between` on a number
   range, an inclusive `between` on the midnights of two picked days, or
   `str.contains` of a pattern. The working frame is narrowed by that
   predicate before the next column is classified.

The model is in five modules, one file each:

- `Tables` (tables.dfy): cells (`Missing`, numbers, strings, time stamps),
  dtypes, rows as maps from column name to cell, and tables. It also holds
  the column queries the filter uses: `unique`, `nunique`, `min`, `max` and
  column assignment.
- `Predicates` (predicates.dfy): the four row predicates and selection by a
  boolean mask (`Keep`). It also defines selection by a conjunction
  (`KeepAll`) and the lemmas that connect the two.
- `Frames` (frames.dfy): the mutable `DataFrame` object. It offers
  `copy()`, in-place `df[col] = ...` and `df[mask]`, which builds a new
  frame.
- `Normalization` (normalization.dfy): the date normalisation loop, with a
  column-by-column description of its effect.
- `Filter` (filter.dfy): the kind dispatch, the widget defaults, one
  narrowing step, the plan of predicates the sequential loop applies, the
  reference result `FilterSpec` (the normalised copy selected once by the
  conjunction of that plan), and the method `FilterDataframe` itself.

The Streamlit widgets become parameters of `FilterDataframe`:

- `addFilters` is the checkbox.
- `chosen` is the multiselect of columns, in the order picked.
- `choice` gives the answer of each column's widget. The column multiselect
  (app.py:382) returns each column at most once, so in one run every picked
  column gets one widget and one answer. That answer can therefore be
  written as a function of the column.

`pd.to_datetime` and the regular-expression engine behind `str.contains`
are passed in as functions and are not interpreted. `pd.to_datetime` is a
function of the whole column. It either raises or yields one cell per input
cell, each a time stamp or NaT, with every missing input cell becoming NaT.
How one cell converts may depend on the other cells of the column.

The narrowing loop of `FilterDataframe` keeps this invariant: the working
frame equals the normalised copy selected once by the conjunction of the
predicates applied so far, and those predicates followed by the rest of
the plan are the whole plan. So applying the predicates one after another
gives the same rows as a single selection by their conjunction. Later
columns are still classified, and given their defaults, on the narrowed
frame, as the code does.

Three behaviours of the code that the model keeps as they are:

- The threshold for "categorical" is 20. The comment at app.py:386 says 10.
- Three failures of `df[column].str.contains(pattern)` are not caught
  anywhere in the function, so each one aborts the whole filter. The model
  returns `Err` for each and does not skip the column. They are listed in
  the order pandas meets them:
  1. The `.str` accessor refuses a column whose non-missing values are all
     numbers or all time stamps.
  2. The pattern does not compile.
  3. The column holds a non-string value, such as a missing value. This
     makes the mask non-boolean, and pandas refuses to index with such a
     mask.
- The default of the date widget does not always keep every row. The
  widget shows days, and the chosen days convert back to midnight. A row
  whose time stamp falls after midnight of the last day is dropped, as
  `DateDefaultDropsLastDay` shows. The default of the numeric slider drops
  the rows whose value is missing.

## Model

| member | source | states |
|---|---|---|
| `Filter.FilterDataframe` | app.py:351-425 | With filtering off the result is the argument object itself. Otherwise it is a fresh frame whose table is `FilterSpec`'s: the normalised copy selected once by the conjunction of the planned predicates, or that plan's error. The caller's frame is unchanged. |
| `Filter.FilterSpec` | app.py:361-425 | Off: the input table unchanged. On: the same column list and the normalised dtypes. The rows are a subsequence, in order, of the normalised rows. They are exactly the normalised rows on which every planned predicate holds, and each is kept as many times as it occurs. The result is an error exactly when the plan fails. |
| `Filter.NormalizeColumns` | app.py:369-377 | The in-place loop over the copy's columns leaves the frame equal to `Normalize` of its previous contents over its column list. |
| `Normalization.NormalizeColumn` | app.py:370-377 | One loop iteration keeps the columns and the row count. It gives the visited column the dtype `NormalDtype` and the cells `NormalCells` (a converted `object` column becomes naive date-time with parsed cells; a date-time column becomes naive with the same cells). Every other column is untouched. |
| `Normalization.NormalizeEffect` | app.py:369-377 | The whole loop normalises every visited column exactly as one iteration would, even when a column is visited twice, and leaves all other columns as they were. |
| `Normalization.NormalizePreservesWellTyped` | app.py:369-377 | After normalisation every date-time column holds only time stamps and missing values, given that this already held before. |
| `Normalization.Normalize` | app.py:369-377 | The loop over the column list keeps the columns and the number of rows. |
| `Filter.KindOf` | app.py:387-418 | Categorical exactly when the dtype is `category` or there are fewer than 20 distinct non-missing values. Numeric exactly for a numeric dtype with at least 20. Date-time exactly for a date-time dtype with at least 20. Text exactly for an `object` dtype with at least 20. |
| `Filter.NumericRangeNonEmpty` | app.py:394-397 | In a well-typed table the numeric branch always has a minimum strictly below its maximum, so the slider's step is positive and never zero. |
| `Filter.KindHasRange` | app.py:394-412 | In a well-typed table a numeric column always has a slider (a minimum and a maximum exist), and a date-time column always has default dates. |
| `Filter.StrAccessorRefuses` | app.py:423 | The `.str` accessor's validation: a column whose non-missing values, of which there is one at least, are all numbers or all time stamps is refused. Its consequence is stated by `RefusedColumnHasNoString` and `StepText`. |
| `Filter.RefusedColumnHasNoString` | app.py:423 | A column the `.str` accessor refuses holds no string, so it would also fail the all-strings mask test. |
| `Filter.StepPred` | app.py:387-423 | The predicate a column's answer selects by tests that column, and an error names that column. No predicate is built exactly for a date answer that is not two dates, or an empty pattern. The answer fails exactly for a text column with a non-empty pattern that does not compile, or whose column holds a non-string. |
| `Filter.Step` | app.py:387-423 | A step keeps the column list and dtypes, and keeps a subsequence of the rows in order. A date answer that is not exactly two dates leaves the table unchanged, and so does an empty pattern. The step fails exactly for a text column with a non-empty pattern that does not compile, or whose column holds a non-string. |
| `Filter.StepCategorical` | app.py:387-393 | A categorical step is the selection by `isin` of the selected set. It keeps exactly the rows whose value is in the set, each as many times as it occurs. |
| `Filter.StepNumeric` | app.py:394-405 | A numeric step is the selection by `between(lo, hi)`. It keeps exactly the rows with a number `v` such that `lo <= v <= hi`, each as many times as it occurs. |
| `Filter.StepDate` | app.py:406-417 | A date step with two days is the selection by `between` on the two days' midnights. It keeps exactly the rows with a time stamp between them, both ends included, each as many times as it occurs. |
| `Filter.StepText` | app.py:418-423 | With a non-empty pattern the step fails in the order pandas raises. First `StrAccessorRefused` when the column has no string values, then `InvalidPattern` for an uncompilable pattern, then `NonTextValue` when the column holds a non-string. Otherwise it is the selection by `str.contains`, keeping exactly the rows in which the pattern is found, with their multiplicities. |
| `Filter.SliderStep` | app.py:397 | The step is one hundredth of the range: 100 steps from the minimum reach the maximum. The step is zero exactly when minimum equals maximum, with no division by zero. |
| `Filter.NumericSlider` | app.py:395-403 | A slider exists exactly when the column holds a number. Its bounds are attained values, the lower one is not above the upper one, and every number of the column lies between them. Its step is `(max - min) / 100`: 100 steps from the minimum reach the maximum. |
| `Filter.DateDefault` | app.py:407-413 | Default dates exist exactly when the column holds a time stamp. They are two days, the first not after the second. Every time stamp lies between the first day's midnight and the end of the last day. Some time stamp falls within the first day and some within the last: they are the days of `min()` and `max()`. |
| `Filter.Midnight` | app.py:415 | `pd.to_datetime` of a picked date: the time stamp of that day's midnight. Its round trip with `Day` is stated by `DayOfMidnight`. |
| `Filter.DayOfMidnight` | app.py:407-415 | A picked day converts to its midnight and back to the same day, and consecutive days' midnights are one day apart. |
| `Filter.Day` | app.py:407-415 | A time stamp lies in the day whose midnight is at or before it and less than a day before it. |
| `Filter.DefaultChoice` | app.py:388-421 | The widget defaults: the column's `unique()` values, the slider's (min, max), the date picker's (min, max) as days, and an empty text box. What they select is stated by `DefaultChoiceCovers`. |
| `Filter.DefaultChoiceCovers` | app.py:388-421 | The widget defaults select everything they can: every value of the column, the range between the column's attained minimum and maximum, two days spanning every time stamp, and no pattern. |
| `Filter.DefaultKeepsAll` | app.py:388-423 | For a categorical column, a text column, or a numeric column without missing values, the default answer leaves the table unchanged. |
| `Filter.NumericDefaultKeepsNonMissing` | app.py:395-405 | The default (min, max) range keeps exactly the rows that have a number in the column, each as many times as it occurs. |
| `Filter.NumericDefaultKeepsAll` | app.py:395-405 | On a numeric column without missing values the default range leaves the table unchanged. |
| `Filter.DateDefaultKeeps` | app.py:407-417 | In a well-typed table, the default dates keep exactly the rows with a time stamp no later than midnight of the last time stamp's day, each as many times as it occurs. |
| `Filter.DateDefaultDropsLastDay` | app.py:407-417 | When the latest time stamp is not at midnight, the default dates do not leave the table unchanged. |
| `Filter.PlanFollowsSteps` | app.py:383-423 | The plan of predicates fails exactly when the first picked column's step fails, or the plan of the remaining columns fails on the table that step leaves. |
| `Filter.Plan` | app.py:383-423 | The plan has no more predicates than there are picked columns. Every predicate, and the column any error names, is a picked column. |
| `Filter.PlanColumnsInOrder` | app.py:383-423 | The columns the plan's predicates test form a subsequence of the picked columns: at most one predicate per picked column, in picking order. |
| `Filter.DefaultPlanHoldsEverywhere` | app.py:383-423 | If every picked column has a no-op default and is answered with it, the plan succeeds, and each of its predicates holds on every row. |
| `Filter.DefaultsChangeNothing` | app.py:383-425 | If every picked column satisfies `DefaultIsNoOp` on the normalised table and is answered with `DefaultChoice`, the filter returns exactly the normalised table. |
| `Filter.NarrowingKeepsConjunction` | app.py:383-423 | The narrowing loop's invariant step: narrowing the conjunction's selection by the next predicate is the selection by the longer conjunction. The plan splits into the predicates applied so far followed by the remaining plan. |
| `Predicates.Holds` | app.py:393-423 | The mask of each predicate: `isin` of a value set (missing included), inclusive `between` on numbers and on time stamps (false on a missing cell), and `str.contains` on a string cell. What each selects is stated by `StepCategorical`, `StepNumeric`, `StepDate` and `StepText`. |
| `Predicates.HoldsOnItsColumn` | app.py:393-423 | A mask value reads only the cell of the predicate's column: two rows that agree there get the same value. |
| `Predicates.Keep` | app.py:393 | `df[mask]` gives a subsequence of the rows, in order, that holds exactly the rows on which the predicate holds, each as many times as it occurs in the input. |
| `Predicates.KeepAll` | app.py:383-423 | Selection by a conjunction gives a subsequence of the rows, in order, that holds exactly the rows on which every predicate holds, each as many times as it occurs in the input. |
| `Predicates.KeepAfterKeepAll` | app.py:383-423 | Selecting by a predicate after selecting by a conjunction equals selecting once by the conjunction extended with that predicate. |
| `Predicates.KeepKeepsAll` | app.py:393 | A predicate that holds on every row keeps every row. |
| `Predicates.KeepIsIdentity` | app.py:393 | A selection leaves the rows unchanged exactly when the predicate holds on every row. |
| `Predicates.KeepAllIsIdentity` | app.py:383-423 | A conjunction that holds on every row keeps every row. |
| `Tables.Unique` | app.py:390-391 | `unique()` holds exactly the values that occur in the column, missing included. |
| `Tables.NUnique` | app.py:387 | `nunique()`: the number of distinct non-missing values of the column. Its treatment of missing values is stated by `NUniqueZero`. |
| `Tables.NUniqueZero` | app.py:387 | `nunique()` is zero exactly when every cell of the column is missing. |
| `Tables.Numbers` | app.py:395-396 | The numbers of a column are exactly the values of its numeric cells. |
| `Tables.Times` | app.py:410-411 | The time stamps of a column are exactly the values of its time-stamp cells. |
| `Tables.MinReal` | app.py:395 | The minimum is an element and is at most every element. |
| `Tables.MaxReal` | app.py:396 | The maximum is an element and is at least every element. |
| `Tables.Earliest` | app.py:410 | The earliest time stamp is an element and is at most every element. |
| `Tables.Latest` | app.py:411 | The latest time stamp is an element and is at least every element. |
| `Tables.WithColumn` | app.py:372 | `df[c] = cells` sets column `c` to exactly those cells and that dtype, and leaves every other column and dtype as it was. The row count is kept, and so is the column list when `c` already exists. |
| `Frames.DataFrame.Copy` | app.py:366 | `copy()` returns a fresh frame with the same contents. |
| `Frames.DataFrame.Assign` | app.py:377 | In-place column assignment changes the frame to `WithColumn` of its previous contents. |
| `Frames.DataFrame.Where` | app.py:393-423 | `df[mask]` returns a fresh frame with the same columns and dtypes whose rows are `Keep` of the rows. |

## Left out

- Streamlit widgets (`checkbox`, `multiselect`, `slider`, `date_input`,
  `text_input`, `container`, `columns`, `write`): user interface. Their
  results are the parameters `addFilters`, `chosen` and `choice`. The
  defaults they are given are `DefaultChoice`, `NumericSlider` and
  `DateDefault`. The slider's own rounding of a chosen value to its step is
  not modelled.
- The check that picked columns exist: the column multiselect only offers
  existing columns. A cell of a column a row lacks reads as missing.
- `get_data_from_excel` (app.py:427-444): spreadsheet I/O and
  `st.cache_data` memoisation are library behaviour.
- `show_tab1`–`show_tab4` (app.py:43-348): chart rendering with plotly.
  Their grouping, sums, sorting and top/bottom-25 selections are single
  pandas calls.
- The main-page glue (app.py:447-481): image, title, file uploader, view
  selector, CSS.
- The rules by which `pd.to_datetime` parses a column, such as format
  inference: the column parser is a parameter. The only thing assumed of
  it is the shape of a successful result (one time stamp or NaT per cell,
  with NaT for every missing cell). A converted column is recorded as naive
  date-time, which is its dtype after `tz_localize(None)` in any case.
- Time zones: time stamps are kept as wall-clock time, so
  `tz_localize(None)` changes only the dtype.
- Time-stamp resolution: pandas counts nanoseconds (`datetime64[ns]`),
  while a `Stamp` counts whole seconds and a day is 86400 of them. The unit
  only matters through `SecondsPerDay`, and no lemma depends on its value.
  With nanoseconds and 86400 * 10^9 per day, every statement reads the same,
  and a stamp a fraction of a second after the last midnight is also dropped
  by the date default.
- Regular-expression semantics of `str.contains`: whether a pattern
  compiles and whether it is found are parameters.
- The type inference behind the `.str` accessor is modelled only for the
  four kinds of cell the model has. A column counts as "no string values"
  when its non-missing values are all numbers or all time stamps.
- Floating point: numbers are reals. The slider step and the bounds'
  `float()` conversion are exact.
- Pandas' row index labels: rows have no index, and order is kept by
  sequence position.
- Boolean and other numeric-like dtypes are all `Numeric`, and the string
  extension dtype is not distinguished from `object`.
