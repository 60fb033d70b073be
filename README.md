# RankingAnalysis: the data pipeline behind the dashboard

RankingAnalysis is a Streamlit dashboard over a CSV of stock-screening
metrics. Each row holds a Stock, a Fair Value (%), an Altman Z-Score, a
Piotroski F-Score, a Beneish M-Score and a Value Generation category. Apart
from widgets and charts, `app.py` does four things with that table. This
project models those four steps and proves what they promise:

1. **Cleaning** (`app.py:22-24`). The Fair Value column is turned into text.
   `str.strip()` removes surrounding whitespace, then every `+` is deleted,
   and the result is converted with `float()`. The M-Score column is
   converted with `float()` as well. One bad cell makes the whole conversion
   fail.
   - Modules `Text` and `Numbers` hold `strip`, `replace('+', '')` and
     `float()` on decimal literals.
   - Module `Table` holds the column-wise conversion.
2. **Default widget positions** (`app.py:29-33`), in module `Defaults`.
   - Each numeric slider spans the column's (min, max).
   - The F-Score slider takes the `int()` of both.
   - The category multiselect starts with the `unique()` categories.
3. **The row mask** (`app.py:36-42`), in modules `Masks` and `Filters`.
   A row is kept when it passes four inclusive range tests and one
   category-membership test. `df[mask]` keeps the passing rows in their
   original order.
4. **The heatmap pivot** (`app.py:98`), in module `Pivot`. The filtered
   table is reshaped into a Stock by Value Generation grid of M-Scores. A
   repeated (Stock, Value Generation) pair makes the pivot fail.

Module `Example` proves what the pipeline yields on two rows, A (`+12.5`,
Quality) and B (`-3.0`, Value): their loading, the defaults, three narrowed
filters and the pivot.

Two behaviours of the code are easy to misread, and a third is a corner of
`float()`:

- **Cleaning is not idempotent on the text.** Stripping happens before `+` is
  removed, so `"+ 12"` becomes `" 12"`, and only a second cleaning gives
  `"12"` (`Text.CleanNotIdempotentOnText`). Cleaning is idempotent on the
  parsed value whenever the first cleaning's text converts, because the
  whitespace `float()` strips around an accepted literal is exactly what
  `strip()` removes (`Numbers.CleanValueIdempotent`).
- **`float()` strips less than `strip()`.** `float()` first maps non-ASCII
  whitespace to spaces and then strips only the ASCII whitespace space, tab,
  newline, vertical tab, form feed and carriage return. The separators
  U+001C to U+001F are whitespace to `str.strip()` but not to `float()`. So
  `"+\x1c1"` fails to convert after one cleaning and converts to 1 after a
  second (`Numbers.SeparatorBlocksFloat`, `Numbers.CleanValueAfterSeparator`).
- **F-Score is a real.** The code applies `int()` to the F-Score column's
  min and max, whatever the column holds. The model therefore keeps F-Score
  as a real and makes the truncation explicit.
  - With whole F-Scores, the default filter keeps every row
    (`Defaults.DefaultsKeepEveryRow`).
  - With an F-Score of 7.5, the default slider is (7, 7) and the row is
    dropped (`Defaults.DefaultsDropFractionalFScore`).
- **An empty table has no defaults.** The column minimum is NaN, and `int()`
  of NaN raises. `Defaults.DefaultCriteria` returns `None` for it.

## Model

| member | source | states |
|---|---|---|
| Text.TrimStartDropsSpace | app.py:23 | `strip()` keeps a suffix of the text (the whole text when nothing is dropped), and every character it drops in front is whitespace |
| Text.TrimStartKeepsChars | app.py:23 | dropping leading whitespace only deletes characters |
| Text.TrimEndDropsSpace | app.py:23 | every character dropped at the end is whitespace |
| Text.Strip | app.py:23 | the stripped text has no whitespace at either end and is no longer than the input |
| Text.StripIsSlice | app.py:23 | `strip()` returns the slice between a leading and a trailing run of whitespace |
| Text.StripKeepsChars | app.py:23 | every character of the stripped text occurs in the input |
| Text.StripStripped | app.py:23 | a text with no whitespace at either end is left unchanged |
| Text.StripIdempotent | app.py:23 | stripping twice is stripping once |
| Text.RemovePlus | app.py:23 | `replace('+', '')` never lengthens the text; `RemovePlusMembers`, `RemovePlusNoPlus` and `RemovePlusAppend` state which characters it keeps and in what order |
| Text.RemovePlusMembers | app.py:23 | `replace('+', '')` leaves no `+`, and keeps exactly the other characters |
| Text.RemovePlusNoPlus | app.py:23 | on a text without `+`, removing `+` is the identity |
| Text.RemovePlusAppend | app.py:23 | removing `+` distributes over concatenation, so the kept characters stay in order |
| Text.Clean | app.py:22-23 | strip, then drop every `+`: every character of the cleaned text comes from the raw text and none is `+`; `CleanTwice`, `SpaceAfterPlusSurvives` and `CleanNotIdempotentOnText` state what a second cleaning does |
| Text.CleanRemovePlusIdempotent | app.py:23 | removing `+` again from a cleaned text changes nothing |
| Text.CleanTwice | app.py:22-23 | a second cleaning only strips: it deletes no character other than surrounding whitespace |
| Text.SpaceAfterPlusSurvives | app.py:22-23 | strip runs before `+` removal: `+` then a space then a stripped text cleans to the space and the text, and a second cleaning removes the space |
| Text.CleanNotIdempotentOnText | app.py:22-23 | `"+ 12"` cleans to `" 12"`, which cleans to `"12"`: the two differ |
| Numbers.NatDigits | app.py:22 | `str(n)` of a natural number is a nonempty run of digits whose value is `n`, with no leading zero unless `n` is 0 |
| Numbers.FormatInt | app.py:22 | `str(n)` of an integer starts with `-` exactly when `n` is negative, and the rest is the canonical digit run of the magnitude: nonempty, valued `|n|`, no leading zero unless `n` is 0 |
| Numbers.DigitsParse | app.py:23-24 | the unsigned-literal reader (no sign, no whitespace) reads a nonempty run of digits as its value |
| Numbers.FloatStrip | app.py:23-24 | the whitespace `float()` strips leaves a text no longer than the input with none of that whitespace at either end |
| Numbers.FloatTrimStartDropsSpace | app.py:23-24 | `float()` keeps a suffix of its text (the whole text when nothing is dropped), and every character it drops in front is its own whitespace |
| Numbers.FloatTrimEndDropsSpace | app.py:23-24 | every character `float()` drops at the end is its own whitespace |
| Numbers.FloatStripIsSlice | app.py:23-24 | `float()` reads the slice between a leading and a trailing run of its own whitespace |
| Numbers.ParseFloat | app.py:23-24 | `float()` of a text with no `strip()` whitespace at either end reads the text as it stands; `FloatStripIsSlice`, `LiteralChars`, `FormatIntRoundTrip`, `DecimalFloat` and `ParseFloatIgnoresStrip` state what it accepts and yields |
| Numbers.FloatStripStripped | app.py:23-24 | a text `strip()` would leave alone is also left alone by `float()`'s own stripping |
| Numbers.LiteralChars | app.py:23-24 | a text `float()` accepts after stripping is nonempty and made only of digits, signs, points and exponent letters |
| Numbers.FloatStripAgrees | app.py:23-24 | when `float()`'s stripping leaves a nonempty text with no `strip()` whitespace at its ends, the two strips agree |
| Numbers.SeparatorBlocksFloat | app.py:23 | `float()` rejects U+001C followed by a digit, while `strip()` turns that text into the digit, which converts |
| Numbers.UnsignedFloat | app.py:23-24 | an unsigned literal that starts and ends with a digit has the value `float()` reads in it |
| Numbers.NegatedFloat | app.py:23-24 | a leading `-` negates the value of an unsigned literal that ends in a digit |
| Numbers.NatDigitsFloat | app.py:22-23 | `float(str(n))` is `n` for a natural number |
| Numbers.NegatedDigitsFloat | app.py:22-23 | `float('-' + str(n))` is `-n` |
| Numbers.FormatIntRoundTrip | app.py:22-23 | round trip through `astype(str)` and `float()`: the text of any integer parses back to that integer |
| Numbers.ParseFloatIgnoresStrip | app.py:23 | on a text `float()` accepts, stripping it first gives the same value |
| Numbers.CleanValueIdempotent | app.py:22-23 | when a cleaned Fair Value converts, cleaning it again converts to the same number |
| Numbers.CleanValueAfterSeparator | app.py:22-23 | `+`, U+001C and a digit: the first cleaning does not convert and the second converts to the digit, so idempotence needs its premise |
| Numbers.ScaleAdd | app.py:23-24 | proof step toward `FractionDigits`: multiplying by a power of ten distributes over a sum |
| Numbers.ScaleTenth | app.py:23-24 | proof step toward `FractionDigits`: a tenth times ten to the `n + 1` is the whole times ten to the `n` |
| Numbers.DigitsValueFront | app.py:23-24 | proof step toward `FractionDigits`: a digit run's value is its first digit times ten to the number of digits after it, plus the value of those digits |
| Numbers.FractionDigits | app.py:23-24 | the fraction `0.ff` times ten to the number of digits `ff` is the integer `ff` |
| Numbers.DecimalParse | app.py:23-24 | a text `ww.ff` parses to `ww` plus the fraction `0.ff` |
| Numbers.DecimalFloat | app.py:23-24 | `float('ww.ff')` is the decimal value of `ww.ff` |
| Numbers.NegativeDecimalFloat | app.py:23-24 | `float('-ww.ff')` is minus that value |
| Table.Collect | app.py:23-24 | a column conversion succeeds exactly when every cell converts, and then it yields the values in order; otherwise it reports the first failing row |
| Table.Assemble | app.py:22-24 | the rebuilt table has one row per raw row, each the cleaned form of the raw row at the same position |
| Table.CleanTable | app.py:22-24 | cleaning succeeds exactly when every cleaned Fair Value and every M-Score parses. Then every row is the cleaned form of its raw row. Otherwise a Fair Value failure names the first bad Fair Value row; an M-Score failure (only when every Fair Value parsed) names the first bad M-Score row |
| Table.CleanTableRowwise | app.py:22-24 | the cleaned table is determined row by row: rows that are each the cleaned form of their raw rows are exactly the result |
| Table.CleanTableFairValueStable | app.py:22-23 | in a loaded table, re-cleaning each raw Fair Value text twice parses to the loaded value |
| Masks.Select | app.py:36-42 | `df[mask]` never lengthens the table and keeps only rows of it; `SelectAt` and `SelectMembership` state which rows and in what order |
| Masks.Where | app.py:36-42 | every row a predicate's mask keeps passes the predicate; `WhereMembership` and `SelectAt` give the converse and the order |
| Masks.Positions | app.py:36-42 | the positions a mask keeps are in range, strictly increasing, and include every true position |
| Masks.SelectAt | app.py:36-42 | `df[mask]` is a subsequence: its `k`-th row is the row at the `k`-th true position |
| Masks.SelectMembership | app.py:36-42 | a row is selected exactly when it occurs at a true position |
| Masks.WhereMembership | app.py:36-42 | a row is kept exactly when it occurs in the table and passes the predicate |
| Masks.WhereAll | app.py:36-42 | a mask that is true everywhere returns the table unchanged |
| Masks.WhereNone | app.py:36-42 | a mask that is false everywhere returns the empty table |
| Masks.WhereAgree | app.py:36-42 | predicates that agree on every row select the same rows |
| Masks.WhereSnoc | app.py:36-42 | appending a row appends it to the result exactly when it passes |
| Masks.WhereWhere | app.py:36-42 | filtering by `p` and then by `q` is filtering once by `p && q` |
| Filters.Filter | app.py:36-42 | a row is in the filtered table exactly when it is in the table and passes all four inclusive range tests and the category test |
| Filters.FilterIsSubsequence | app.py:36-42 | the filtered table is the rows at the strictly increasing positions that pass every test, in order |
| Filters.FilterMonotone | app.py:36-42 | lowering a `lo`, raising a `hi` or adding categories never removes a row: the narrower result is the narrower filter applied to the wider result |
| Filters.FilterNoCategory | app.py:41 | an empty category selection yields an empty table |
| Filters.StagesKeepPassingRows | app.py:36-42 | applying the tests as successive filters keeps exactly the rows that pass all of them |
| Filters.FilterInAnyOrder | app.py:36-42 | the five tests can be applied as successive filters in any order, and the result is the filtered table |
| Defaults.MinOf | app.py:29-32 | `min()` of a nonempty column is an element of it and at most every element |
| Defaults.MaxOf | app.py:29-32 | `max()` of a nonempty column is an element of it and at least every element |
| Defaults.Trunc | app.py:31 | `int()` truncates toward zero |
| Defaults.TruncWhole | app.py:31 | `int()` of a whole number is that number |
| Defaults.Distinct | app.py:33 | `unique()` holds every value of the column and no value twice |
| Defaults.CategoriesMembers | app.py:33 | the category column holds exactly the rows' categories |
| Defaults.ColumnBounds | app.py:29-32 | the computed minimum and maximum are the column's least and greatest values |
| Defaults.DefaultCriteria | app.py:29-33 | defaults exist exactly for a nonempty table. Each real range is the column's (min, max), and the F-Score range is the `int()` of the F-Score column's (min, max). The categories are every category in the table, each once |
| Defaults.DefaultRangesCoverColumns | app.py:29-33 | every Fair Value, Z-Score and M-Score lies in its default range, and every row's category is selected |
| Defaults.DefaultFScoreRangeCovers | app.py:31 | with whole F-Scores, every F-Score lies in the default F-Score range |
| Defaults.DefaultsKeepEveryRow | app.py:29-42 | with every widget at its default and whole F-Scores, the filter keeps the whole table |
| Defaults.KeepAllByFScore | app.py:31-42 | when every row passes the other four tests, the filter keeps every row exactly when the truncated F-Score range still contains the column's min and max |
| Defaults.DefaultsKeepEveryRowExactly | app.py:29-42 | the defaults keep every row if and only if `int()` does not raise the F-Score minimum and does not lower the F-Score maximum |
| Defaults.DefaultsDropFractionalFScore | app.py:31 | a one-row table with F-Score 7.5 gets the F-Score default (7, 7), and the default filter keeps nothing |
| Pivot.Cells | app.py:98 | the pivot's filled cells, built row by row; `CellsKeys`, `CellsValues` and `CellsFail` state its keys, its values and when it fails |
| Pivot.CellsKeys | app.py:98 | the built cells are keyed by exactly the rows' (Stock, Value Generation) pairs |
| Pivot.CellsValues | app.py:98 | the cell of each row's key holds that row's M-Score |
| Pivot.CellsFail | app.py:98 | building the cells succeeds exactly when no key repeats; a failure names a key that two rows share |
| Pivot.Pivot | app.py:98 | the pivot succeeds exactly when no (Stock, Value Generation) pair repeats, and a failure names a shared pair. Its row labels are the rows' stocks and its column labels the rows' categories |
| Pivot.Cell | app.py:98 | a heatmap cell holds the pivot's value for its pair when the pair is filled, and is blank otherwise; `PivotCells` states which pairs are filled |
| Pivot.PivotCells | app.py:98 | on success each row's cell holds its M-Score, a pair no row has is blank, and every filled cell lies within the labelled grid |
| Example.CleanOfA | app.py:22-23 | `+12.5` cleans to `12.5` |
| Example.ParseOfA | app.py:23 | `float('12.5')` is 12.5 |
| Example.CleanOfB | app.py:22-23 | `-3.0` is left unchanged by cleaning |
| Example.ParseOfB | app.py:23 | `float('-3.0')` is -3.0 |
| Example.ParseOfMScoreA | app.py:24 | `float('0.3')` is 0.3 |
| Example.ParseOfMScoreB | app.py:24 | `float('1.1')` is 1.1 |
| Example.LoadTwoRows | app.py:22-24 | loading the raw rows A and B yields Fair Values 12.5 and -3.0 and M-Scores 0.3 and 1.1 |
| Example.DefaultsOfTwoRows | app.py:29-33 | on rows A and B the sliders default to (-3.0, 12.5), (0.9, 1.2), (5, 7) and (0.3, 1.1), with both categories selected |
| Example.FilterTwoRows | app.py:36-42 | the defaults keep both rows. Fair Value in [0, 20], or only Quality selected, or both, keeps exactly row A |
| Example.PivotTwoRows | app.py:98 | A and B fill one heatmap cell each with their M-Scores, and the other two cells are blank |

## Left out

- The Streamlit interface is not modelled: the title, file upload, tables on screen, sidebar widgets and the rerun-on-every-interaction execution model. The model takes the widget positions as a `Criteria` value.
- Reading the CSV file (`pd.read_csv`) is not modelled. A raw row holds the Fair Value and M-Score cells as text, and the Z-Score and F-Score as already numeric.
- A column whose name is missing is not modelled. Rows are typed records, so every field is present.
- `astype(str)` on a Fair Value column that pandas read as floats is not modelled. Only the text of integers is modelled (`Numbers.FormatIntRoundTrip`). Python's shortest-repr printing of binary floats is left out.
- Numbers are exact reals, not IEEE doubles, so `float()` rounding is left out. The model's `float()` reads an optional sign, digits with an optional point (`.5` and `5.` included) and an optional exponent. Python's `inf`, `nan` and underscores between digits are left out.
- Numbers.ParseFloat: Python's `float()` also reads non-ASCII decimal digits (Arabic-Indic `١٢`, for instance) as their ASCII counterparts; the model reads only ASCII digits.
- Table.CleanTable: it inherits the gaps of the model's `float()`, so a Fair Value or M-Score cell written in non-ASCII digits, or holding `inf`, `nan` or underscores between digits (`1_000`), fails to load in the model while Python loads it.
- Missing values (NaN) are left out. Every cell is a number or text, so NaN's always-false comparisons never arise.
- Plotting with seaborn and matplotlib is left out; it is presentation only.
- The cleaning step is modelled as a pure map from raw rows to cleaned rows. In-place reassignment of the two columns is not modelled.
- Defaults.Distinct: the contract states contents and no repetition, but not the first-occurrence order that `unique()` returns (the body keeps that order).
- Pivot.Pivot: the row and column labels are sets; the sorted order pandas gives them is not modelled.
