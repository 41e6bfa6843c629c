/**
 * `PrecipitationData`: the object that extracts, per target location, the precipitation
 * series of the nearest grid cell over a trailing window of days, and tabulates it.
 * Opening the dataset is replaced by a `Dataset` value passed in; the two files the
 * object reads and writes (the target coordinates and the previous timestamp) are
 * fields holding their contents.
 */
module Precipitation {
  import opened Wrappers
  import opened Longitude
  import opened Nearest
  import opened TimeWindow
  import opened Pivot

  /** One row of the target-coordinate file: columns `Location`, `Lat`, `Lon`. */
  datatype Target = Target(name: string, lat: int, lon: int)

  /** An opened dataset: its time, lat and lon axes and `precip[time][lat][lon]` (None for NaN). */
  datatype Dataset = Dataset(times: seq<int>, lats: seq<int>, lons: seq<int>,
                             precip: seq<seq<seq<Option<real>>>>)

  /** The ways the pipeline fails. */
  datatype Error =
    | MissingCoordinateFile  // the target-coordinate file cannot be read; re-raised
    | EmptyGrid              // a nearest-cell lookup on an empty lat or lon axis
    | EmptyTimeAxis          // `time_values[-1]` on an empty time axis
    | NoData                 // `save_to_csv` while `data` is still None after `read_data`

  /** `np.datetime64("1970-01-01T00:00:00")`: timestamps are seconds since the epoch. */
  const Epoch: int := 0

  /** The precip array has one lat x lon grid per timestamp. */
  ghost predicate WellFormed(ds: Dataset)
  {
    && |ds.precip| == |ds.times|
    && (forall t :: 0 <= t < |ds.precip| ==> |ds.precip[t]| == |ds.lats|)
    && (forall t, i :: 0 <= t < |ds.precip| && 0 <= i < |ds.lats| ==> |ds.precip[t][i]| == |ds.lons|)
  }

  predicate HasGrid(ds: Dataset)
  {
    |ds.lats| > 0 && |ds.lons| > 0
  }

  /** `ds.isel(time=slice(-1 * days, None))`: the grid is kept, each kept time keeps its own values. */
  function WindowDataset(ds: Dataset, days: int): (w: Dataset)
    requires WellFormed(ds)
    ensures WellFormed(w)
    ensures w.lats == ds.lats && w.lons == ds.lons
    ensures w.times == TrailingWindow(ds.times, days)
    ensures forall k :: 0 <= k < |w.times| ==> w.precip[k] == ds.precip[|ds.times| - |w.times| + k]
  {
    Dataset(TrailingWindow(ds.times, days), ds.lats, ds.lons, TrailingWindow(ds.precip, days))
  }

  function Names(targets: seq<Target>): (names: seq<string>)
    ensures |names| == |targets|
    ensures forall k :: 0 <= k < |targets| ==> names[k] == targets[k].name
  {
    seq(|targets|, k requires 0 <= k < |targets| => targets[k].name)
  }

  /**
   * `df["Lon"] = _convert_longitude(df["Lon"], from_360_to_180=False)`: only the `Lon`
   * column changes, to the position on the circle within [0, 360); names, latitudes
   * and row order stay.
   */
  function NormaliseTargets(targets: seq<Target>): (r: seq<Target>)
    ensures |r| == |targets|
    ensures forall k :: 0 <= k < |r| ==>
              r[k].name == targets[k].name && r[k].lat == targets[k].lat &&
              0 <= r[k].lon < FullTurn && (r[k].lon - targets[k].lon) % FullTurn == 0
  {
    seq(|targets|, k requires 0 <= k < |targets| =>
        targets[k].(lon := ConvertLongitude(targets[k].lon, false)))
  }

  /** Normalising an already normalised target list changes nothing. */
  lemma NormaliseTargetsIdempotent(targets: seq<Target>)
    ensures NormaliseTargets(NormaliseTargets(targets)) == NormaliseTargets(targets)
  {
    var once := NormaliseTargets(targets);
    forall k | 0 <= k < |targets|
      ensures NormaliseTargets(once)[k] == once[k]
    {
      ConvertIdempotent(targets[k].lon, false);
    }
  }

  /**
   * One loop iteration of `read_data`: `sel(lat=..., lon=..., method="nearest")` on the
   * window, tagged with the target's name. Each axis is looked up on its own; the cell
   * this selects is a closest cell of the grid (`SelectedCellIsNearest`).
   */
  function PointSeries(w: Dataset, target: Target): (pts: seq<Record>)
    requires WellFormed(w) && HasGrid(w)
    ensures |pts| == |w.times|
    ensures forall k :: 0 <= k < |pts| ==> pts[k].time == w.times[k] && pts[k].location == target.name
    ensures var i, j := AxisNearest(w.lats, target.lat).value, AxisNearest(w.lons, target.lon).value;
            i < |w.lats| && j < |w.lons| &&
            forall k :: 0 <= k < |pts| ==> pts[k].value == w.precip[k][i][j]
  {
    var i := AxisNearest(w.lats, target.lat).value;
    var j := AxisNearest(w.lons, target.lon).value;
    seq(|w.times|, k requires 0 <= k < |w.times| => Record(w.times[k], target.name, w.precip[k][i][j]))
  }

  /** The records `read_data` concatenates, target after target in file order. */
  function Extract(w: Dataset, targets: seq<Target>): (recs: seq<Record>)
    requires WellFormed(w) && HasGrid(w)
    ensures forall k :: 0 <= k < |recs| ==> recs[k].time in w.times && recs[k].location in Names(targets)
    decreases |targets|
  {
    if |targets| == 0 then []
    else
      var prefix, last := targets[..|targets| - 1], targets[|targets| - 1];
      assert forall n :: n in Names(prefix) ==> n in Names(targets) by {
        forall n | n in Names(prefix) ensures n in Names(targets) {
          var m :| 0 <= m < |prefix| && Names(prefix)[m] == n;
          assert Names(targets)[m] == n;
        }
      }
      assert Names(targets)[|targets| - 1] == last.name;
      Extract(w, prefix) + PointSeries(w, last)
  }

  /**
   * What `read_data` leaves in `data`, or the error it raises: a missing target file
   * fails first; an empty target list leaves None; otherwise the first lookup on an
   * empty grid fails.
   */
  function LoadRecords(ds: Dataset, days: int, targetFile: Option<seq<Target>>): (r: Result<Option<seq<Record>>, Error>)
    requires WellFormed(ds)
    ensures targetFile.None? ==> r == Err(MissingCoordinateFile)
    ensures r == Ok(None) <==> targetFile.Some? && |targetFile.value| == 0
    ensures targetFile.Some? && |targetFile.value| > 0 ==> (r.Err? <==> !HasGrid(ds)) && (r.Err? ==> r.error == EmptyGrid)
    ensures r.Ok? && r.value.Some? ==>
              forall k :: 0 <= k < |r.value.value| ==>
                r.value.value[k].time in ds.times && r.value.value[k].location in Names(targetFile.value)
  {
    match targetFile
    case None => Err(MissingCoordinateFile)
    case Some(rows) =>
      var targets := NormaliseTargets(rows);
      var w := WindowDataset(ds, days);
      if |targets| == 0 then Ok(None)
      else if !HasGrid(w) then Err(EmptyGrid)
      else Ok(Some(Extract(w, targets)))
  }

  /** The three outcomes of `read_data` once the target file has been read. */
  lemma LoadRecordsCases(ds: Dataset, days: int, rows: seq<Target>)
    requires WellFormed(ds)
    ensures LoadRecords(ds, days, Some(rows))
         == if |rows| == 0 then Ok(None)
            else if !HasGrid(WindowDataset(ds, days)) then Err(EmptyGrid)
            else Ok(Some(Extract(WindowDataset(ds, days), NormaliseTargets(rows))))
  {
  }

  // ---------------------------------------------------------------- report columns

  lemma LocationsAppend(a: seq<Record>, b: seq<Record>)
    ensures Locations(a + b) == Locations(a) + Locations(b)
  {
  }

  /**
   * With a non-empty window the locations of the concatenated records, deduplicated in
   * order of first appearance, are the target names in file order.
   */
  lemma {:induction false} ExtractLocationOrder(w: Dataset, targets: seq<Target>)
    requires WellFormed(w) && HasGrid(w) && |w.times| > 0
    ensures Unique(Locations(Extract(w, targets))) == Unique(Names(targets))
    decreases |targets|
  {
    if |targets| > 0 {
      var prefix, last := targets[..|targets| - 1], targets[|targets| - 1];
      var before := Locations(Extract(w, prefix));
      ExtractLocationOrder(w, prefix);
      ExtractSnocLocations(w, targets);
      UniqueRun(before, last.name, |w.times|);
      UniqueSnoc(before, Names(prefix), last.name);
      NamesSnoc(targets);
    }
  }

  lemma NamesSnoc(targets: seq<Target>)
    requires |targets| > 0
    ensures Names(targets) == Names(targets[..|targets| - 1]) + [targets[|targets| - 1].name]
  {
  }

  /** The last target adds a run of its own name, one per window timestamp. */
  lemma ExtractSnocLocations(w: Dataset, targets: seq<Target>)
    requires WellFormed(w) && HasGrid(w) && |targets| > 0
    ensures Locations(Extract(w, targets))
         == Locations(Extract(w, targets[..|targets| - 1])) + Repeat(targets[|targets| - 1].name, |w.times|)
  {
    var prefix, last := targets[..|targets| - 1], targets[|targets| - 1];
    var before, pts := Extract(w, prefix), PointSeries(w, last);
    assert Extract(w, targets) == before + pts;
    PointSeriesLocations(w, last);
    LocationsAppend(before, pts);
  }

  lemma PointSeriesLocations(w: Dataset, target: Target)
    requires WellFormed(w) && HasGrid(w)
    ensures Locations(PointSeries(w, target)) == Repeat(target.name, |w.times|)
  {
  }

  /**
   * The report's columns are the target locations in the order of the target file
   * (each name once), whatever the data: the reindex to first-appearance order restores
   * the order the records were concatenated in.
   */
  lemma ReportColumnsFollowTargets(ds: Dataset, days: int, rows: seq<Target>)
    requires WellFormed(ds) && |TrailingWindow(ds.times, days)| > 0
    requires LoadRecords(ds, days, Some(rows)).Ok? && LoadRecords(ds, days, Some(rows)).value.Some?
    ensures PivotTable(LoadRecords(ds, days, Some(rows)).value.value).columns == Unique(Names(rows))
    ensures NoDup(Names(rows)) ==> PivotTable(LoadRecords(ds, days, Some(rows)).value.value).columns == Names(rows)
  {
    var targets := NormaliseTargets(rows);
    ExtractLocationOrder(WindowDataset(ds, days), targets);
    assert Names(targets) == Names(rows);
    if NoDup(Names(rows)) {
      UniqueOfDistinct(Names(rows));
    }
  }

  // ---------------------------------------------------------------- report cells

  lemma ExtractSnoc(w: Dataset, targets: seq<Target>)
    requires WellFormed(w) && HasGrid(w) && |targets| > 0
    ensures Extract(w, targets)
         == Extract(w, targets[..|targets| - 1]) + PointSeries(w, targets[|targets| - 1])
  {
  }

  /** One more loop iteration of `read_data` appends the next target's series. */
  lemma ExtractPrefixStep(w: Dataset, targets: seq<Target>, i: nat)
    requires WellFormed(w) && HasGrid(w) && i < |targets|
    ensures Extract(w, targets[..i + 1]) == Extract(w, targets[..i]) + PointSeries(w, targets[i])
    ensures i == 0 ==> Extract(w, targets[..i + 1]) == PointSeries(w, targets[i])
  {
    ExtractSnoc(w, targets[..i + 1]);
    assert targets[..i + 1][..i] == targets[..i];
  }

  /** On an ascending time axis a target's series has one record per timestamp. */
  lemma PointSeriesGroup(w: Dataset, target: Target, k: nat)
    requires WellFormed(w) && HasGrid(w) && Ascending(w.times) && k < |w.times|
    ensures MatchingValues(PointSeries(w, target), w.times[k], target.name)
         == if PointSeries(w, target)[k].value.Some? then [PointSeries(w, target)[k].value.value] else []
  {
    var pts := PointSeries(w, target);
    assert forall m :: 0 <= m < |pts| && m != k ==> pts[m].time != pts[k].time;
    MatchingValuesSingle(pts, k);
  }

  /** A name that is not among the targets has no records. */
  lemma ExtractNameAbsent(w: Dataset, targets: seq<Target>, time: int, name: string)
    requires WellFormed(w) && HasGrid(w) && name !in Names(targets)
    ensures MatchingValues(Extract(w, targets), time, name) == []
  {
    MatchingValuesNone(Extract(w, targets), time, name);
  }

  /** A target's series has no records under another name. */
  lemma PointSeriesOtherName(w: Dataset, target: Target, time: int, name: string)
    requires WellFormed(w) && HasGrid(w) && name != target.name
    ensures MatchingValues(PointSeries(w, target), time, name) == []
  {
    MatchingValuesNone(PointSeries(w, target), time, name);
  }

  lemma NoDupPrefix(names: seq<string>)
    requires NoDup(names) && |names| > 0
    ensures NoDup(names[..|names| - 1]) && names[|names| - 1] !in names[..|names| - 1]
  {
  }

  /**
   * With distinct target names, the group of a target's name at a timestamp holds
   * exactly what that target's own series has there.
   */
  lemma {:induction false} ExtractGroup(w: Dataset, targets: seq<Target>, c: nat, time: int)
    requires WellFormed(w) && HasGrid(w) && NoDup(Names(targets)) && c < |targets|
    ensures MatchingValues(Extract(w, targets), time, targets[c].name)
         == MatchingValues(PointSeries(w, targets[c]), time, targets[c].name)
    decreases |targets|
  {
    var prefix, last := targets[..|targets| - 1], targets[|targets| - 1];
    var name := targets[c].name;
    ExtractSnoc(w, targets);
    MatchingValuesAppend(Extract(w, prefix), PointSeries(w, last), time, name);
    NamesSnoc(targets);
    NoDupPrefix(Names(targets));
    if c == |targets| - 1 {
      ExtractNameAbsent(w, prefix, time, name);
    } else {
      assert Names(targets)[c] == name && Names(prefix)[c] == name;
      PointSeriesOtherName(w, last, time, name);
      ExtractGroup(w, prefix, c, time);
    }
  }

  /** Every timestamp in the window has a value at every target's nearest cell. */
  ghost predicate AllValued(w: Dataset, targets: seq<Target>)
    requires WellFormed(w) && HasGrid(w)
  {
    forall c, k :: 0 <= c < |targets| && 0 <= k < |w.times| ==> PointSeries(w, targets[c])[k].value.Some?
  }

  /** Records only carry window timestamps. */
  lemma ExtractTimes(w: Dataset, targets: seq<Target>, t: int)
    requires WellFormed(w) && HasGrid(w) && HasValueAt(Extract(w, targets), t)
    ensures t in w.times
  {
    var recs := Extract(w, targets);
    var rec :| rec in recs && rec.time == t && rec.value.Some?;
    var m :| 0 <= m < |recs| && recs[m] == rec;
  }

  /** With distinct names and a non-empty window, the columns are the target names in file order. */
  lemma ExtractColumns(w: Dataset, targets: seq<Target>)
    requires WellFormed(w) && HasGrid(w) && |w.times| > 0 && NoDup(Names(targets))
    ensures PivotTable(Extract(w, targets)).columns == Names(targets)
  {
    ExtractLocationOrder(w, targets);
    UniqueOfDistinct(Names(targets));
  }

  /** The group of target c at window position k is that target's value there, if any. */
  lemma ExtractCellGroup(w: Dataset, targets: seq<Target>, c: nat, k: nat)
    requires WellFormed(w) && HasGrid(w) && Ascending(w.times) && NoDup(Names(targets))
    requires c < |targets| && k < |w.times|
    ensures MatchingValues(Extract(w, targets), w.times[k], targets[c].name)
         == if PointSeries(w, targets[c])[k].value.Some? then [PointSeries(w, targets[c])[k].value.value] else []
  {
    ExtractGroup(w, targets, c, w.times[k]);
    PointSeriesGroup(w, targets[c], k);
  }

  /** With a value everywhere, every window timestamp becomes a row, in order. */
  lemma FullReportIndex(w: Dataset, targets: seq<Target>)
    requires WellFormed(w) && HasGrid(w) && Ascending(w.times)
    requires |targets| > 0 && NoDup(Names(targets)) && AllValued(w, targets)
    ensures PivotTable(Extract(w, targets)).index == w.times
  {
    var recs := Extract(w, targets);
    var index := PivotTable(recs).index;
    forall t
      ensures t in index <==> t in w.times
    {
      if t in w.times {
        var k :| 0 <= k < |w.times| && w.times[k] == t;
        ExtractCellGroup(w, targets, 0, k);
        var v := PointSeries(w, targets[0])[k].value.value;
        assert v in MatchingValues(recs, t, targets[0].name);
        assert Record(t, targets[0].name, Some(v)) in recs;
      }
      if t in index {
        ExtractTimes(w, targets, t);
      }
    }
    AscendingUnique(index, w.times);
  }

  /**
   * The normal run: with distinct target names, an ascending time axis and a value at
   * every selected cell, the report has one row per window timestamp, one column per
   * target in file order, and every cell is the value extracted for that target then.
   */
  lemma FullReport(w: Dataset, targets: seq<Target>)
    requires WellFormed(w) && HasGrid(w) && Ascending(w.times) && |w.times| > 0
    requires |targets| > 0 && NoDup(Names(targets)) && AllValued(w, targets)
    ensures var tbl := PivotTable(Extract(w, targets));
            && tbl.index == w.times
            && tbl.columns == Names(targets)
            && forall r, c :: 0 <= r < |w.times| && 0 <= c < |targets| ==>
                 tbl.cells[r][c] == PointSeries(w, targets[c])[r].value
  {
    ExtractColumns(w, targets);
    FullReportIndex(w, targets);
    FullReportCells(w, targets);
  }

  /** The cells of the normal run, once its rows and columns are known. */
  lemma FullReportCells(w: Dataset, targets: seq<Target>)
    requires WellFormed(w) && HasGrid(w) && Ascending(w.times) && |w.times| > 0
    requires |targets| > 0 && NoDup(Names(targets)) && AllValued(w, targets)
    requires PivotTable(Extract(w, targets)).index == w.times
    requires PivotTable(Extract(w, targets)).columns == Names(targets)
    ensures forall r, c :: 0 <= r < |w.times| && 0 <= c < |targets| ==>
              PivotTable(Extract(w, targets)).cells[r][c] == PointSeries(w, targets[c])[r].value
  {
    forall r, c | 0 <= r < |w.times| && 0 <= c < |targets|
      ensures PivotTable(Extract(w, targets)).cells[r][c] == PointSeries(w, targets[c])[r].value
    {
      FullReportCell(w, targets, r, c);
    }
  }

  /** One cell of the normal run: the single value extracted for that target and time. */
  lemma FullReportCell(w: Dataset, targets: seq<Target>, r: nat, c: nat)
    requires WellFormed(w) && HasGrid(w) && Ascending(w.times) && r < |w.times| && c < |targets|
    requires NoDup(Names(targets)) && AllValued(w, targets)
    requires PivotTable(Extract(w, targets)).index == w.times
    requires PivotTable(Extract(w, targets)).columns == Names(targets)
    ensures PivotTable(Extract(w, targets)).cells[r][c] == PointSeries(w, targets[c])[r].value
  {
    ExtractCellGroup(w, targets, c, r);
    PivotSingleValue(Extract(w, targets), w.times[r], targets[c].name, PointSeries(w, targets[c])[r].value.value);
  }

  /**
   * A target whose nearest cell has no value anywhere in the window still has its
   * column, in file order, and every cell of it is empty.
   */
  lemma ReportTargetWithoutData(w: Dataset, targets: seq<Target>, c: nat)
    requires WellFormed(w) && HasGrid(w) && Ascending(w.times) && |w.times| > 0
    requires NoDup(Names(targets)) && c < |targets|
    requires forall k :: 0 <= k < |w.times| ==> PointSeries(w, targets[c])[k].value.None?
    ensures PivotTable(Extract(w, targets)).columns == Names(targets)
    ensures forall r :: 0 <= r < |PivotTable(Extract(w, targets)).index| ==>
              PivotTable(Extract(w, targets)).cells[r][c].None?
  {
    var recs := Extract(w, targets);
    var tbl := PivotTable(recs);
    ExtractColumns(w, targets);
    forall r | 0 <= r < |tbl.index|
      ensures tbl.cells[r][c].None?
    {
      var t := tbl.index[r];
      ExtractTimes(w, targets, t);
      var k :| 0 <= k < |w.times| && w.times[k] == t;
      ExtractCellGroup(w, targets, c, k);
      assert tbl.columns[c] == targets[c].name;
    }
  }

  // ---------------------------------------------------------------- the object

  class PrecipitationData {
    /** `settings.EXTRACTED_DAYS`. */
    const extractedDays: int
    /** The rows of `data/TARGET_COORD_FILENAME`; None when it is missing or unreadable. */
    const targetCoordFile: Option<seq<Target>>
    /** The contents of `data/PREV_TIME_FILENAME`; None when the file does not exist. */
    var prevTimeFile: Option<int>
    var data: Option<seq<Record>>
    var targetCoords: Option<seq<Target>>

    constructor (extractedDays: int, targetCoordFile: Option<seq<Target>>, prevTimeFile: Option<int>)
      ensures this.extractedDays == extractedDays && this.targetCoordFile == targetCoordFile
      ensures this.prevTimeFile == prevTimeFile
      ensures data == None && targetCoords == None
    {
      this.extractedDays := extractedDays;
      this.targetCoordFile := targetCoordFile;
      this.prevTimeFile := prevTimeFile;
      data := None;
      targetCoords := None;
    }

    /** `get_curr_time_value`: the last timestamp of the dataset; an empty time axis is an error. */
    method GetCurrTimeValue(ds: Dataset) returns (r: Result<int, Error>)
      ensures r.Err? <==> |ds.times| == 0
      ensures r.Err? ==> r.error == EmptyTimeAxis
      ensures r.Ok? ==> Some(r.value) == LastTime(ds.times)
      ensures r.Ok? && Ascending(ds.times) ==> forall t :: t in ds.times ==> t <= r.value
    {
      if |ds.times| == 0 {
        return Err(EmptyTimeAxis);
      }
      if Ascending(ds.times) {
        LastTimeIsLatest(ds.times);
      }
      r := Ok(ds.times[|ds.times| - 1]);
    }

    /** `get_previous_time_value`: the stored timestamp, or the epoch when nothing is stored. */
    method GetPreviousTimeValue() returns (t: int)
      ensures prevTimeFile.None? ==> t == Epoch
      ensures prevTimeFile.Some? ==> t == prevTimeFile.value
    {
      match prevTimeFile
      case None => t := Epoch;
      case Some(stored) => t := stored;
    }

    /** `update_previous_time_value`: overwrites the stored timestamp. */
    method UpdatePreviousTimeValue(t: int)
      modifies this`prevTimeFile
      ensures prevTimeFile == Some(t)
    {
      prevTimeFile := Some(t);
    }

    /** `_read_target_coords`: loads the target rows with normalised longitudes, or fails. */
    method ReadTargetCoords() returns (r: Result<(), Error>)
      modifies this`targetCoords
      ensures targetCoordFile.None? ==> r == Err(MissingCoordinateFile) && targetCoords == old(targetCoords)
      ensures targetCoordFile.Some? ==> r == Ok(()) && targetCoords == Some(NormaliseTargets(targetCoordFile.value))
    {
      match targetCoordFile
      case None =>
        r := Err(MissingCoordinateFile);
      case Some(rows) =>
        targetCoords := Some(NormaliseTargets(rows));
        r := Ok(());
    }

    /**
     * `read_data`: windows the dataset, (re)loads the targets, then concatenates one
     * nearest-cell series per target. `data` is assigned only when the loop completes;
     * the targets stay loaded even when a lookup fails.
     */
    method ReadData(ds: Dataset) returns (r: Result<(), Error>)
      requires WellFormed(ds)
      modifies this`data, this`targetCoords
      ensures targetCoords == if targetCoordFile.Some? then Some(NormaliseTargets(targetCoordFile.value))
                              else old(targetCoords)
      ensures match LoadRecords(ds, extractedDays, targetCoordFile)
              case Ok(loaded) => r == Ok(()) && data == loaded
              case Err(e) => r == Err(e) && data == old(data)
    {
      var window := WindowDataset(ds, extractedDays);
      var loaded := ReadTargetCoords();
      if loaded.Err? {
        return Err(loaded.error);
      }
      var targets := targetCoords.value;
      LoadRecordsCases(ds, extractedDays, targetCoordFile.value);
      var nearest: Option<seq<Record>> := None;
      var i := 0;
      while i < |targets|
        invariant 0 <= i <= |targets|
        invariant i > 0 ==> HasGrid(window)
        invariant data == old(data) && targetCoords == Some(targets)
        invariant nearest == if i == 0 then None else Some(Extract(window, targets[..i]))
      {
        if !HasGrid(window) {
          return Err(EmptyGrid);
        }
        var point := PointSeries(window, targets[i]);
        ExtractPrefixStep(window, targets, i);
        if nearest.None? {
          nearest := Some(point);
        } else {
          nearest := Some(nearest.value + point);
        }
        i := i + 1;
      }
      assert targets[..i] == targets;
      data := nearest;
      r := Ok(());
    }

    /**
     * `save_to_csv`: reads the data first if there is none, then pivots it; the table is
     * returned instead of written. With no data even after reading it fails.
     */
    method SaveToCsv(ds: Dataset) returns (r: Result<Table, Error>)
      requires WellFormed(ds)
      modifies this`data, this`targetCoords
      ensures old(data).Some? ==>
                data == old(data) && targetCoords == old(targetCoords) && r == Ok(PivotTable(data.value))
      ensures old(data).None? ==>
                targetCoords == (if targetCoordFile.Some? then Some(NormaliseTargets(targetCoordFile.value))
                                 else old(targetCoords))
      ensures old(data).None? ==>
                match LoadRecords(ds, extractedDays, targetCoordFile)
                case Err(e) => r == Err(e) && data == None
                case Ok(None) => r == Err(NoData) && data == None
                case Ok(Some(recs)) => r == Ok(PivotTable(recs)) && data == Some(recs)
    {
      if data.None? {
        var loaded := ReadData(ds);
        if loaded.Err? {
          return Err(loaded.error);
        }
      }
      if data.None? {
        return Err(NoData);
      }
      r := Ok(PivotTable(data.value));
    }

    /**
     * `_find_nearest_locations`, one target at a time: loads the targets if they are not
     * loaded yet, then gives each target the coordinates of its nearest grid cell.
     */
    method FindNearestLocations(lats: seq<int>, lons: seq<int>) returns (r: Result<seq<(int, int)>, Error>)
      modifies this`targetCoords
      ensures old(targetCoords).Some? ==> targetCoords == old(targetCoords)
      ensures old(targetCoords).None? ==>
                targetCoords == (if targetCoordFile.Some? then Some(NormaliseTargets(targetCoordFile.value)) else None)
      ensures targetCoords.None? ==> r == Err(MissingCoordinateFile)
      ensures targetCoords.Some? && (|lats| == 0 || |lons| == 0) ==> r == Err(EmptyGrid)
      ensures targetCoords.Some? && |lats| > 0 && |lons| > 0 ==>
                r.Ok? && |r.value| == |targetCoords.value| &&
                forall k :: 0 <= k < |r.value| ==>
                  Some(r.value[k]) == NearestLocation(lats, lons, targetCoords.value[k].lat, targetCoords.value[k].lon)
    {
      if targetCoords.None? {
        var loaded := ReadTargetCoords();
        if loaded.Err? {
          return Err(MissingCoordinateFile);
        }
      }
      if |lats| == 0 || |lons| == 0 {
        return Err(EmptyGrid);
      }
      var targets := targetCoords.value;
      r := Ok(seq(|targets|, k requires 0 <= k < |targets| =>
                  NearestLocation(lats, lons, targets[k].lat, targets[k].lon).value));
    }
  }

  /** After `update_previous_time_value(t)`, `get_previous_time_value` reads t back. */
  method PreviousTimeRoundTrip(p: PrecipitationData, t: int) returns (read: int)
    modifies p
    ensures read == t
  {
    p.UpdatePreviousTimeValue(t);
    read := p.GetPreviousTimeValue();
  }
}
