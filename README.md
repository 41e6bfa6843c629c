# Precipitation extraction model

A Dafny model of the extraction and report pipeline in `precipitation.py`. Its class
`PrecipitationData` does the following:

- reads the latest timestamp of a gridded precipitation dataset;
- keeps the previous run's timestamp in a small state file;
- loads a list of named target locations and puts their longitudes into the 0..360 domain;
- for each target, extracts the series of the nearest grid cell over the last
  `EXTRACTED_DAYS` timestamps;
- pivots the concatenated series into a table with one column per location and one
  row per timestamp at which some location has a value. The rows are in ascending
  time order. The columns follow the order in which the locations first appear.

Modules, one per component:

- `Wrappers` (`wrappers.dfy`): `Option` and `Result`.
- `Longitude` (`longitude.dfy`): `_convert_longitude`. Longitudes are integers in
  hundredths of a degree. Python's `%` with a positive divisor equals Dafny's `%`.
- `Nearest` (`nearest.dfy`): `_find_nearest_locations` for one target. This is a
  row-major `np.argmin` over the lat x lon grid of squared distances, followed by
  `np.unravel_index`. The module also has the per-axis nearest lookup that `read_data`
  uses (`sel(..., method="nearest")`), with pandas' tie rule: of two equidistant
  coordinates the larger one wins. Both searches land on a closest cell of the grid.
  They pick the same cell when no axis has two coordinates equally far from the
  target. On an exact tie they can differ: `np.argmin` keeps the first cell in scan
  order (`SearchesDifferOnTie`).
- `TimeWindow` (`time_window.dfy`): `time_values[-1]` and Python's
  `slice(-days, None)` on the time axis.
- `Pivot` (`pivot.dfy`): `unique()`, `pivot_table(..., aggfunc="mean")` and
  `reindex(columns=...)`. It is modelled over records of (time, location, value). A
  NaN value is `None`.
- `Precipitation` (`precipitation.dfy`):
  - the datatypes (`Target`, `Dataset`, `Error`);
  - the specification of what `read_data` produces (`LoadRecords`);
  - the class `PrecipitationData`. Its fields are updated in place, and `ReadData`
    holds the loop that accumulates the per-target records.

Behaviour of the code that the model keeps:

- **0..360 conversion.** Target longitudes are normalised with `lon % 360`
  (line 200), so -90 becomes 270 and a longitude already in [0, 360) is unchanged.
- **Column order.** Columns are ordered by first appearance in the concatenated
  records (line 117). This is target-list order when the window is non-empty and the
  names are distinct (`ReportColumnsFollowTargets`). Two targets with the same name
  share one column.
- **Empty window.** An empty window yields no records and so no columns.
- **Column without data.** A column with no data arises only from NaN values. The
  pivot drops such a column, and the reindex puts it back
  (`PivotKeepsEmptyColumn`, `ReportTargetWithoutData`).
- **Row without data.** A timestamp at which every location is NaN has no row: the
  pivot drops all-NaN groups, and nothing puts the row back (`ValuedTimes`,
  `PivotRowsHaveValues`).
- **State file.** `update_previous_time_value` overwrites the stored timestamp with
  whatever it is given. Nothing compares it with the stored one first.

## Model

| member | source | states |
|---|---|---|
| `Longitude.ConvertLongitude` | precipitation.py:194-203 | the result is in [-180, 180) when converting to the 180 domain and in [0, 360) otherwise, and differs from the input by whole turns |
| `Longitude.ConvertFixesDomain` | precipitation.py:194-203 | a longitude already in the target domain is unchanged |
| `Longitude.ConvertCongruent` | precipitation.py:194-203 | two longitudes convert to the same value iff they differ by a multiple of 360 degrees |
| `Longitude.ConvertIdempotent` | precipitation.py:194-203 | converting twice in one direction equals converting once |
| `Longitude.To180UndoesTo360` | precipitation.py:196 | for lon in [-180, 180), to180(to360(lon)) == lon |
| `Longitude.To360UndoesTo180` | precipitation.py:200 | for lon in [0, 360), to360(to180(lon)) == lon |
| `Longitude.RoundTripExample` | precipitation.py:194-203 | 200 degrees becomes -160 degrees and converts back to 200 |
| `Nearest.ArgMin` | precipitation.py:152 | `np.argmin`: an in-range index whose element is no larger than any other, and strictly smaller than every earlier one |
| `Nearest.DistanceGridAt` | precipitation.py:149-151 | position i * width + j of the flattened distance array holds cell (i, j)'s squared distance to the target |
| `Nearest.NearestCell` | precipitation.py:149-152 | None exactly when the lat or lon axis is empty (argmin of an empty array fails); otherwise an in-bounds (lat index, lon index) |
| `Nearest.NearestCellIsFirstMinimal` | precipitation.py:149-156 | on a non-empty grid the chosen cell is no farther than any cell, and every earlier cell in row-major order is strictly farther, so the choice is deterministic |
| `Nearest.NearestLocation` | precipitation.py:148-159 | the returned lat and lon are coordinates of the grid, and no grid cell is closer to the target than they are; None exactly on an empty axis |
| `Nearest.AxisNearest` | precipitation.py:66-70 | a coordinate on one axis at minimal distance to the target; of equidistant coordinates the larger, as pandas' nearest lookup breaks ties; None on an empty axis |
| `Nearest.AxisNearestTieGoesUp` | precipitation.py:66-70 | on an exact tie the selected coordinate lies above the target and the other one below it |
| `Nearest.SelectedCellIsNearest` | precipitation.py:66-70 | the cell the two per-axis lookups select is a closest cell of the whole grid, and the `np.argmin` cell has a closest latitude and a closest longitude |
| `Nearest.SearchesAgreeWithoutTie` | precipitation.py:66-70 | when no two coordinates of an axis are equally far from the target, the whole-grid search and the per-axis lookups select the same cell |
| `Nearest.SearchesDifferOnTie` | precipitation.py:149-152 | longitudes 99.75 and 100.25 with a target at 100: `np.argmin` keeps the first cell, the per-axis lookup takes the larger longitude |
| `TimeWindow.TrailingWindow` | precipitation.py:57-59 | the window is a suffix of the time axis, never longer than it |
| `TimeWindow.WindowKeepsLast` | precipitation.py:57-59 | for days >= 1 the window is the last min(days, T) entries in their original order |
| `TimeWindow.WindowKeepsAll` | precipitation.py:57-59 | days == 0 (because -0 == 0) or days >= T keeps the whole axis |
| `TimeWindow.WindowNegativeDropsFirst` | precipitation.py:57-59 | a negative day count drops the first -days entries |
| `TimeWindow.LastTime` | precipitation.py:29-30 | the last timestamp, absent exactly when the time axis is empty |
| `TimeWindow.LastTimeIsLatest` | precipitation.py:29-30 | on an ascending axis the last timestamp is the latest one |
| `TimeWindow.WindowKeepsLastTime` | precipitation.py:57-59 | a non-empty window has the same last timestamp as the whole axis |
| `TimeWindow.WindowAscending` | precipitation.py:57-59 | the window of an ascending axis is ascending |
| `Pivot.Unique` | precipitation.py:117 | `unique()` has no repeats and the same elements as its input |
| `Pivot.UniqueFirstAppearance` | precipitation.py:117 | `unique()` lists elements in order of first appearance |
| `Pivot.UniqueOfDistinct` | precipitation.py:117 | a list without repeats is its own `unique()` |
| `Pivot.InsertSorted` | precipitation.py:120-125 | inserting a time into an ascending list of row labels keeps it ascending and adds exactly that time |
| `Pivot.ValuedTimes` | precipitation.py:120-125 | the row labels are ascending and are exactly the times at which some record has a value |
| `Pivot.MatchingValues` | precipitation.py:120-125 | a group holds only values of records with that time and location, and is non-empty iff such a record has a value |
| `Pivot.MeanBounds` | precipitation.py:124 | a mean lies between the smallest and the largest averaged value |
| `Pivot.CellValue` | precipitation.py:120-125 | a cell is absent iff no record of that time and location carries a value |
| `Pivot.PivotTable` | precipitation.py:117-128 | rows ascending and exactly the times with a value; columns distinct and exactly the locations present; cells[r][c] is the mean of group (index[r], columns[c]) |
| `Pivot.PivotColumnOrder` | precipitation.py:117-128 | whenever a column's location occurs in the records, every earlier column's location occurred before it |
| `Pivot.PivotRowsHaveValues` | precipitation.py:120-125 | every row of the table has at least one cell with a value |
| `Pivot.PivotKeepsEmptyColumn` | precipitation.py:117-128 | a location that occurs in the records, all of whose records are NaN, still has a column, and all its cells are empty |
| `Pivot.PivotSingleValue` | precipitation.py:124 | a group with one value yields exactly that value |
| `Pivot.PivotCellBounds` | precipitation.py:124 | a cell lies within the bounds of its group's values |
| `Pivot.MatchingValuesAppend` | precipitation.py:120-125 | grouping distributes over concatenation of records |
| `Pivot.AscendingUnique` | precipitation.py:120-125 | two ascending lists with the same elements are equal, so the row labels are determined by the set of valued times |
| `Precipitation.WindowDataset` | precipitation.py:57-59 | the windowed dataset keeps the grid, its times are the trailing window, and each kept time keeps its own values |
| `Precipitation.NormaliseTargets` | precipitation.py:173 | only `Lon` changes, to the 0..360 image of the same position; names, latitudes and row order are unchanged |
| `Precipitation.NormaliseTargetsIdempotent` | precipitation.py:173 | normalising a normalised target list changes nothing |
| `Precipitation.PointSeries` | precipitation.py:66-75 | one record per window timestamp, tagged with the target's name, whose value is the one at the nearest latitude and nearest longitude `AxisNearest` selects |
| `Precipitation.Extract` | precipitation.py:64-83 | every concatenated record carries a window timestamp and the name of one of the targets |
| `Precipitation.LoadRecords` | precipitation.py:55-86 | a missing target file is an error; an empty target list leaves no data; a non-empty list fails exactly when the lat or lon axis is empty, with `EmptyGrid`, and otherwise loads records that carry dataset timestamps and target names |
| `Precipitation.ExtractLocationOrder` | precipitation.py:64-83 | with a non-empty window, first-appearance order of the concatenated locations equals first-appearance order of the target names |
| `Precipitation.ReportColumnsFollowTargets` | precipitation.py:117-128 | when the load succeeds with data and the window is non-empty, the report's columns are the target names in file order, each once, and exactly the names when they are distinct |
| `Precipitation.ExtractGroup` | precipitation.py:64-83 | with distinct names, a target's group in the concatenated records equals its group in its own series |
| `Precipitation.ExtractColumns` | precipitation.py:117-128 | with distinct names and a non-empty window the columns are exactly the target names in file order |
| `Precipitation.ExtractCellGroup` | precipitation.py:64-83 | with distinct names on a non-empty grid and an ascending time axis, target c's group at window position k is that target's value there, or empty for NaN |
| `Precipitation.FullReportIndex` | precipitation.py:120-125 | with at least one target, distinct names, an ascending time axis and a value at every selected cell, the rows are exactly the window timestamps in order |
| `Precipitation.FullReport` | precipitation.py:117-128 | normal run (non-empty ascending window, at least one target, distinct names, a value at every selected cell): one row per window timestamp, columns in target order, each cell the value extracted for that target and timestamp |
| `Precipitation.ReportTargetWithoutData` | precipitation.py:117-128 | with a non-empty ascending window and distinct names, a target whose nearest cell is NaN throughout keeps its column in file order, with every cell empty |
| `Precipitation.PrecipitationData.constructor` | precipitation.py:18-22 | a new object has no data and no loaded targets |
| `Precipitation.PrecipitationData.GetCurrTimeValue` | precipitation.py:24-31 | the last timestamp of the dataset (the latest one on an ascending axis); an empty time axis is an error |
| `Precipitation.PrecipitationData.GetPreviousTimeValue` | precipitation.py:33-42 | the stored timestamp, or the epoch when nothing is stored |
| `Precipitation.PrecipitationData.UpdatePreviousTimeValue` | precipitation.py:44-48 | the stored timestamp becomes the given one |
| `Precipitation.PreviousTimeRoundTrip` | precipitation.py:33-48 | after an update with t, reading the previous timestamp gives t |
| `Precipitation.PrecipitationData.ReadTargetCoords` | precipitation.py:161-174 | a missing file is an error and leaves the loaded targets as they were; otherwise the targets become the file rows with normalised longitudes |
| `Precipitation.PrecipitationData.ReadData` | precipitation.py:50-86 | the targets are reloaded; on success `data` becomes the concatenated per-target records (None for no targets); on an error `data` is unchanged |
| `Precipitation.PrecipitationData.SaveToCsv` | precipitation.py:103-128 | with data present, its pivot table; otherwise it reads first and returns the pivot of what was read, the read's error, or an error when there is still no data |
| `Precipitation.PrecipitationData.FindNearestLocations` | precipitation.py:144-159 | loads the targets when none are loaded; fails on a missing file or an empty grid; otherwise gives each target the coordinates of its nearest grid cell |

## Left out

- Opening the dataset (`xr.open_dataset`, netCDF, the remote URL) is not modelled. Each operation receives the opened `Dataset` as a value. Failures to reach or parse the source are not modelled.
- The two files the object reads and writes are fields holding their contents. `targetCoordFile` is None when the CSV is missing or unreadable, and `prevTimeFile` is None when the state file is absent. Their text formats are not modelled: parsing a timestamp with `np.datetime64(...)` and writing it with `str(...)` are taken to round-trip. A state file with unparsable text is not modelled.
- Writing the CSV (`to_csv`) is not modelled. `SaveToCsv` returns the table it would write.
- Logging is not modelled.
- Floating point is not modelled. Precipitation values are `real` and coordinates are integers; longitudes are in hundredths of a degree. Distances are compared squared, so `np.sqrt` is omitted; it does not change the argmin.
- `compute_statistics` and `extract_subset` are not modelled. They are numpy statistics and xarray masking, off the extraction path.
- `main.py` (web routes, e-mail), `settings.py` (environment loading) and `logging_config.py` are not part of this model. `EXTRACTED_DAYS` and the files are constructor parameters.
- The dataset is assumed rectangular (`WellFormed`): one lat x lon grid per timestamp, which any opened gridded dataset has.
- Nearest.AxisNearest: pandas' nearest lookup raises on an axis that is not monotonic or has repeated coordinates. The model does not raise there: it still returns a closest coordinate, the larger on a tie and the first of equal ones.
- Precipitation.PrecipitationData.FindNearestLocations: the model computes each target's nearest cell separately, which is what the code evidently intends. As written, lines 149-150 subtract the target file's `Lat` and `Lon` columns (pandas Series) from the grid's coordinate arrays. Those are not broadcast against each other by dimension name. The shapes this produces, and the errors it raises, are not modelled.
- The extra `lat`/`lon` columns of `to_dataframe()` are not modelled, because the pivot never reads them.
