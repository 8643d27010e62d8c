# GEA earthquake dashboard: data rules, modelled in Dafny

GEA is an earthquake dashboard. A Python script prepares a 2023 global
earthquake dataset, and a small React/d3 front end draws it in several
charts. This project models the rules by which the data is shaped on the
way and proves properties of them:

- **Preprocessing** (`preprocessing.dfy`). Three rules bucket the data:
  - events are sorted into depth categories (shallow below 70, intermediate
    below 300, deep otherwise);
  - they are sorted into magnitude categories (minor, light, moderate, strong
    and major, one unit each from 4.0 to 8.0, and no category at 8.0 or
    more);
  - day-of-month buckets become week labels "1" to "4".

  Rows get sequential ids. Label-encoded columns are written as
  `"<label>: <code>"` and read back with `int(x.split(': ')[1])`. The
  month/week loop is a method with loop invariants. The script's other
  steps are functions.
- **Time heatmap** (`time_heatmap.dfy`). A 12 x 4 count matrix
  (`array2<int>`) is zeroed and then incremented in place, once per CSV row
  whose month and week are in range. The flattened matrix is laid out on a
  12-column grid.
- **Parallel coordinates** (`parallel_coordinates.dfy`). For the dimensions
  `magSource`, `magType`, `type` and `depth_category`:
  - every `"category:number"` cell is replaced in place by its number;
  - a per-dimension dictionary from number to category is filled, and the
    last row written wins;
  - the axis tick formatter looks labels up in that dictionary.
- **t-SNE scatterplot** (`tsne_scatterplot.dfy`). Contains the
  magnitude-category colour table with its `#000000` fallback, the constant
  radius 3, and the legend, which lists the table entries in order with the
  first letter capitalised.
- **Pipeline** (`pipeline.dfy`). Lemmas that connect the pieces:
  - the front end's `split(':')` and `parseFloat` undo the script's
    `f"{x}: {code}"`;
  - with an injective label dictionary, each axis tick code shows the label
    that was encoded with it;
  - a point is drawn black exactly when its magnitude is 8.0 or more;
  - if the heatmap were given the script's CSV, every event with a
    calendar month would be counted once. Grid.jsx mounts it without a
    `csvUrl`, so as written it counts nothing (see Findings).
- `text.dfy` holds the shared primitives: splitting on a separator (with
  its inverse, joining), decimal rendering and reading of numbers.

The parsed month and day of each event, the fitted label dictionaries and
the loaded CSV rows are inputs. File and network I/O, pandas, date parsing
and the machine-learning steps are not modelled.

In the heatmap, `data.flat()` of `dataMatrix[month][week]` is month-major,
but rectangle `i` is placed in month column `i % 12` and week row
`floor(i / 12)`. The cell at flat index `i` therefore shows
`dataMatrix[i / 4][i % 4]`. The model keeps this layout as written
(`TimeHeatmap.DrawnAt`) and records the mismatch under Findings. It also
models the corrected placement, column `floor(i / 4)` and row `i % 4`
(`TimeHeatmap.IntendedAt`).

## Model

| member | source | states |
|---|---|---|
| Text.SplitJoin | preprocessing/preprocessing.py:104-105 | joining the parts of a split with the separator gives back the text, and no part contains the separator |
| Preprocessing.DepthBands | preprocessing/preprocessing.py:42-48 | every depth gets one category: shallow iff depth < 70, intermediate iff 70 <= depth < 300, deep iff depth >= 300 |
| Preprocessing.DepthMonotone | preprocessing/preprocessing.py:42-48 | a greater depth never gets a shallower category |
| Preprocessing.MagnitudeDefined | preprocessing/preprocessing.py:50-60 | a category is returned iff magnitude < 8.0; from 8.0 on the chain falls through to None |
| Preprocessing.MagnitudeBands | preprocessing/preprocessing.py:50-60 | minor iff m < 4, light iff 4 <= m < 5, moderate iff 5 <= m < 6, strong iff 6 <= m < 7, major iff 7 <= m < 8 |
| Preprocessing.MagnitudeMonotone | preprocessing/preprocessing.py:50-60 | for m1 <= m2 < 8.0 both have a category and m1's is not above m2's in minor < light < moderate < strong < major |
| Preprocessing.CategoryNames | preprocessing/preprocessing.py:42-60 | the category texts are pairwise distinct and contain no colon |
| Preprocessing.WeekBands | preprocessing/preprocessing.py:29-36 | day 1-7 gives "1", 8-14 "2", 15-21 "3", every other day "4"; the label is always one of these four |
| Preprocessing.MonthsAndWeeks | preprocessing/preprocessing.py:25-36 | the loop yields exactly one month and one week label per time element, in input order: month i is element i's month, week i is its day's week label |
| Preprocessing.Range | preprocessing/preprocessing.py:67 | `list(range(n))` has length n and holds i at position i |
| Preprocessing.IdsDistinct | preprocessing/preprocessing.py:66-68 | the ids of the n rows are pairwise distinct and cover every value below n |
| Preprocessing.PyInt | preprocessing/preprocessing.py:104 | `int` succeeds exactly on an optional sign followed by at least one digit |
| Preprocessing.CodecRoundTrip | preprocessing/preprocessing.py:97-105 | for a label without ": ", decoding `f"{x}: {code}"` with `int(s.split(': ')[1])` gives back `code` |
| Preprocessing.EncodeColumn | preprocessing/preprocessing.py:97-101 | the column encodes without error iff every label is in the dictionary (otherwise the error is KeyError), and then cell i is `f"{x}: {mapping[x]}"` for row i's label |
| Preprocessing.DecodeColumn | preprocessing/preprocessing.py:104-105 | the column decodes iff every cell decodes; on failure the error is that of the first failing cell; on success there is one value per cell, each the cell's own decode |
| Preprocessing.ColumnRoundTrip | preprocessing/preprocessing.py:97-105 | encoding a column and decoding it again gives every row's code, in order |
| TimeHeatmap.Zeros | gea-project/src/components/TimeHeatmap.jsx:27-29 | the initial matrix has 12 rows of 4 cells, every one 0 |
| TimeHeatmap.Tally | gea-project/src/components/TimeHeatmap.jsx:31-39 | a row with month in 1..12 and week in 1..4 adds one to cell [month-1][week-1] and no other cell changes; any other row leaves the whole matrix unchanged |
| TimeHeatmap.BuildMatrix | gea-project/src/components/TimeHeatmap.jsx:27-41 | the fresh 12 x 4 matrix after the loop equals the row-by-row fold of Tally's effect, starting from zeros |
| TimeHeatmap.CountsAreMatches | gea-project/src/components/TimeHeatmap.jsx:30-41 | each cell equals the number of rows with that month and week |
| TimeHeatmap.TotalIsInRange | gea-project/src/components/TimeHeatmap.jsx:30-41 | the cells sum to the number of in-range rows, so never more than the number of rows |
| TimeHeatmap.NothingInRangeCountsNothing | gea-project/src/components/TimeHeatmap.jsx:30-41 | rows that all fail the range guard leave the matrix at all zeros, with sum 0 |
| TimeHeatmap.CellsNonNegative | gea-project/src/components/TimeHeatmap.jsx:30-41 | no cell is negative |
| TimeHeatmap.FlatAt | gea-project/src/components/TimeHeatmap.jsx:78 | `flat()` of rows of 4 has 4 entries per row and entry i is row i / 4, column i % 4 |
| TimeHeatmap.LayoutPlacement | gea-project/src/components/TimeHeatmap.jsx:81-82 | for i < 48 the column `i % 12` is below 12 and the row `floor(i / 12)` below 4, and distinct indices get distinct (column, row) pairs |
| TimeHeatmap.DrawnValue | gea-project/src/components/TimeHeatmap.jsx:77-82 | the rectangle at the layout position of flat index i shows `dataMatrix[i / 4][i % 4]` |
| TimeHeatmap.DrawnMislabels | gea-project/src/components/TimeHeatmap.jsx:78-82 | as written, one February week-1 event lights the May column, and the February week-1 cell shows 0 |
| TimeHeatmap.FixedPlacement | gea-project/src/components/TimeHeatmap.jsx:81-82 | the corrected placement (column `floor(i / 4)`, row `i % 4`) puts the 48 flat indices inside the 12 x 4 grid, distinct indices on distinct cells |
| TimeHeatmap.FixedValue | gea-project/src/components/TimeHeatmap.jsx:77-82 | under the corrected placement the rectangle of flat index i lands in column i / 4, row i % 4 and shows the matrix entry of that month and week |
| TimeHeatmap.IntendedShowsOwnCell | gea-project/src/components/TimeHeatmap.jsx:81-106 | under the corrected placement, the rectangle under month label c and week label r shows exactly the number of events of month c+1, week r+1 |
| ParallelCoordinates.ParseFloatNumber | gea-project/src/components/ParallelCoordinatesPlot.jsx:19 | `parseFloat` of a rendered number, with or without one leading space, is that number |
| ParallelCoordinates.DecodeCellParts | gea-project/src/components/ParallelCoordinatesPlot.jsx:18-19 | the category is the text before the first colon, and the number is parsed from the text between the first and the second colon |
| ParallelCoordinates.DecodeCellNoColon | gea-project/src/components/ParallelCoordinatesPlot.jsx:18-19 | a cell without a colon decodes to its whole text and NaN, since `parseFloat(undefined)` is NaN |
| ParallelCoordinates.RewriteRowFrame | gea-project/src/components/ParallelCoordinatesPlot.jsx:16-19 | a row keeps its keys; keys outside the four dimensions keep their values; a dimension key holds the number its text carries |
| ParallelCoordinates.MappingsDomain | gea-project/src/components/ParallelCoordinatesPlot.jsx:22 | a dimension gets a dictionary iff at least one row carries that key |
| ParallelCoordinates.LastWriterWins | gea-project/src/components/ParallelCoordinatesPlot.jsx:22-23 | the entry for number n is the category of the last row whose number for that dimension was n |
| ParallelCoordinates.EntriesComeFromRows | gea-project/src/components/ParallelCoordinatesPlot.jsx:22-23 | every dictionary entry has a row whose cell decodes to that category and number |
| ParallelCoordinates.Store | gea-project/src/components/ParallelCoordinatesPlot.jsx:22-23 | creating the dimension's dictionary when missing and writing the entry gives the dictionaries with exactly that one entry set |
| ParallelCoordinates.DecodeRow | gea-project/src/components/ParallelCoordinatesPlot.jsx:16-25 | visiting the keys of one row, in any order, rewrites that row in place as above, leaves every other row unchanged, and records the row's dimensions |
| ParallelCoordinates.DecodeRows | gea-project/src/components/ParallelCoordinatesPlot.jsx:15-26 | after the loop every row is rewritten and the dictionaries are the row-by-row fold over the loaded rows |
| ParallelCoordinates.TickFormatCases | gea-project/src/components/ParallelCoordinatesPlot.jsx:79 | with no dictionary for the dimension, the raw value is shown; with one, a recorded number shows its category and any other value gives `undefined` |
| TsneScatterplot.Lookup | gea-project/src/components/T-SNEScatterplot.jsx:71 | a table lookup finds a value iff the key is in the table, and the value is that key's entry |
| TsneScatterplot.ColorTableKeys | gea-project/src/components/T-SNEScatterplot.jsx:4-10 | the five category keys of the colour table are distinct |
| TsneScatterplot.FillKnown | gea-project/src/components/T-SNEScatterplot.jsx:69-71 | each of the five known categories is filled with its table colour |
| TsneScatterplot.FillUnknown | gea-project/src/components/T-SNEScatterplot.jsx:72 | a missing or unknown category is filled `#000000` |
| TsneScatterplot.PointCircle | gea-project/src/components/T-SNEScatterplot.jsx:68-73 | every point gets radius 3 and the fill of its category |
| TsneScatterplot.SameRadius | gea-project/src/components/T-SNEScatterplot.jsx:68 | any two points get the same radius |
| TsneScatterplot.Capitalize | gea-project/src/components/T-SNEScatterplot.jsx:90 | the label has the key's length, its first character upper-cased and the rest unchanged |
| TsneScatterplot.LegendMatchesTable | gea-project/src/components/T-SNEScatterplot.jsx:80-90 | the legend has exactly one item per table entry, in table order, with that entry's colour and capitalised key |
| TsneScatterplot.LegendLabels | gea-project/src/components/T-SNEScatterplot.jsx:80-90 | the legend reads Minor, Light, Moderate, Strong, Major with their colours |
| Pipeline.DecodeEncoded | gea-project/src/components/ParallelCoordinatesPlot.jsx:18-19 | the plot's colon split and `parseFloat` decode the script's `f"{x}: {code}"` to (x, code) when x has no colon |
| Pipeline.EncodeLabelDecodes | preprocessing/preprocessing.py:97-101 | a dictionary label without a colon, encoded by the script, decodes in the plot to the label and its code |
| Pipeline.DepthCategoryDecodes | preprocessing/preprocessing.py:101 | every depth category survives the encode and decode unchanged, together with its code |
| Pipeline.EntryPresent | gea-project/src/components/ParallelCoordinatesPlot.jsx:22-23 | a number that some row carried for a dimension is a key of that dimension's dictionary |
| Pipeline.CodesDecodeToLabels | gea-project/src/components/ParallelCoordinatesPlot.jsx:18-23 | with an injective label dictionary, the plot's dictionary maps every code back to the label encoded with it, whichever row came last, and the tick for that code shows the label |
| Pipeline.FillFromMagnitude | gea-project/src/components/T-SNEScatterplot.jsx:69-73 | a point is drawn black iff its magnitude is 8.0 or more; below 8.0 it gets the table colour of its category |
| Pipeline.EveryEventCounted | gea-project/src/components/TimeHeatmap.jsx:30-41 | if the heatmap is fed the script's rows and every month is a calendar month, every event's week label is in range, so the cells sum to the number of events |
| Pipeline.UnfedHeatmapCountsNothing | gea-project/src/components/Grid.jsx:18 | as mounted without a `csvUrl`, the loaded rows carry no month or week, so however many load, every cell stays 0 and the sum is 0 |

## Findings

| source | as written | input that shows it | evidently intended | confidence | as-written member | corrected member |
|---|---|---|---|---|---|---|
| gea-project/src/components/TimeHeatmap.jsx:81-82 | rectangle i of the month-major `data.flat()` goes to column `i % 12`, row `floor(i / 12)`, so the cell under month label c, week label r shows `dataMatrix[(12r + c) / 4][(12r + c) % 4]` | one event with month 2, week 1: it lights the May column (flat index 4), and the Feb / Week 1 cell shows the Jan / Week 2 count 0 | the cell in month column c, week row r shows `dataMatrix[c][r]` | high; not executed | `TimeHeatmap.DrawnMislabels` | `TimeHeatmap.IntendedShowsOwnCell` |
| gea-project/src/components/Grid.jsx:18 | `<TimeHeatmap />` is mounted without the `csvUrl` prop that the other two CSV charts get (`'/prep_dataset.csv'`), so `d3.csv(undefined)` loads no month or week column, or fails and leaves the data empty | the app as mounted, with any dataset | `<TimeHeatmap csvUrl={csvUrl} />`, so the cells count the script's events | medium; not executed | `Pipeline.UnfedHeatmapCountsNothing` | `Pipeline.EveryEventCounted` |

## Left out

- GeoMap.jsx and App.jsx are not part of this model, and Grid.jsx is
  modelled only through the props it passes to the heatmap. The map draws
  with a d3 projection, and the other two only compose the layout.
  The revision modelled has no zoom, pan, category filter or tooltip logic,
  so none is modelled.
- CSV and GeoJSON reading and writing, and the row filtering steps
  (`drop`, `drop_duplicates`, `dropna`, `iloc`) are not modelled; they are
  pandas library calls.
- The time reformatting and `dateutil.parse` are not modelled. The parsed
  month and day are integer inputs (`Preprocessing.Timestamp`).
- Where `df.insert` places the new columns is not modelled. Columns are
  modelled as sequences.
- The fitting of `LabelEncoder` is not modelled. Its label-to-code
  dictionary is an input, and it is injective where that matters
  (`Pipeline.Injective`).
- `StandardScaler`, t-SNE and the float conversion of `tsne_x`/`tsne_y`
  are not modelled; they are floating-point library code.
- `Preprocessing.PyInt`: Python `int` also accepts surrounding whitespace,
  underscores between digits and non-ASCII decimal digits (such as
  Arabic-Indic digits). These forms are not modelled, because the
  codes the script writes never contain them.
- `ParallelCoordinates.ParseFloatNumber`: `parseFloat` is modelled as
  skipping leading spaces and then reading the longest run of decimal
  digits. Other whitespace, signs, fractions, exponents and `Infinity` are
  not modelled, because the label codes are non-negative integers.
- `ParallelCoordinates.DecodeRows` requires every cell to be text, as a CSV
  load delivers it. On a cell that already holds a number, JavaScript's
  `split` would throw, and that path is not modelled. The order of
  `Object.keys` is left arbitrary; the result does not depend on it.
- `ParallelCoordinates.TickFormatCases`: tick values are modelled as exact
  reals. Dictionary keys are compared by value, not through the
  number-to-string conversion of JavaScript property keys.
- `TsneScatterplot.Capitalize`: `toUpperCase` is modelled for ASCII letters
  only. Unicode case mapping, which can change a string's length, is not
  modelled.
- `TsneScatterplot.FillUnknown`: values that a JavaScript object inherits
  from its prototype (for example a category named `constructor`) are not
  modelled as table entries.
- `TimeHeatmap.Tally` takes month and week as integers. In the source,
  unary `+` on a fractional text such as "1.5" passes the range guard.
  A fractional month makes `dataMatrix[monthIndex]` undefined, and the
  increment then throws. A fractional week with a whole month does not
  throw: the increment stores NaN under a non-index property of the row
  array, which `data.flat()` ignores, so that row is silently not counted.
  Neither path is modelled.
- d3 scales, colour interpolation, axes and labels are not modelled, and
  neither is the float cell-size arithmetic of the heatmap.
- React state and effects, and the asynchronous loading with its error
  logging, are not modelled; they are framework behaviour and I/O.
