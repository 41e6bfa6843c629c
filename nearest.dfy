/**
 * Nearest-grid-cell selection (`PrecipitationData._find_nearest_locations` and the
 * per-axis `sel(..., method="nearest")` of `read_data`). Coordinates are integers;
 * distances are compared squared, since the square root the source takes is monotone
 * and does not change which cell is smallest.
 */
module Nearest {
  import opened Wrappers

  /** Squared difference along one axis. */
  function AxisDist(coord: int, target: int): (d: nat)
  {
    (coord - target) * (coord - target)
  }

  /** Squared Euclidean distance between a grid cell and a target, in coordinate space. */
  function SqDist(lat: int, lon: int, targetLat: int, targetLon: int): (d: nat)
  {
    AxisDist(lat, targetLat) + AxisDist(lon, targetLon)
  }

  /** `np.argmin`: the position of the first smallest element. */
  function ArgMin(s: seq<int>): (r: nat)
    requires |s| > 0
    ensures r < |s|
    ensures forall k :: 0 <= k < |s| ==> s[r] <= s[k]
    ensures forall k :: 0 <= k < r ==> s[r] < s[k]
    decreases |s|
  {
    if |s| == 1 then 0
    else
      var k := ArgMin(s[..|s| - 1]);
      if s[|s| - 1] < s[k] then |s| - 1 else k
  }

  // Row-major index arithmetic (`np.unravel_index` on a lat x lon array).

  lemma MulMonotone(a: int, b: int, w: int)
    requires 0 <= a <= b && 0 <= w
    ensures a * w <= b * w
  {
    assert b * w - a * w == (b - a) * w;
  }

  /** Row i, column j of a w-column array sits at flat position i * w + j, and back. */
  lemma FlatIndex(i: int, j: int, w: int)
    requires 0 <= i && 0 <= j < w
    ensures (i * w + j) / w == i && (i * w + j) % w == j
  {
    var k := i * w + j;
    var q, r := k / w, k % w;
    assert k == q * w + r && 0 <= r < w;
    if q > i {
      MulMonotone(i + 1, q, w);
      assert false;
    } else if q < i {
      MulMonotone(q + 1, i, w);
      assert false;
    }
  }

  /** A flat position in an h x w array unravels to an in-bounds (row, column). */
  lemma Unravel(k: int, h: nat, w: nat)
    requires 0 <= k < h * w
    ensures 0 < w && 0 <= k / w < h && 0 <= k % w < w
    ensures k == (k / w) * w + k % w
  {
    var q := k / w;
    if q >= h {
      MulMonotone(h, q, w);
    }
  }

  /** Flat positions are ordered lexicographically by (row, column). */
  lemma RowMajorOrder(i1: int, j1: int, i2: int, j2: int, w: int)
    requires 0 <= i1 && 0 <= i2 && 0 <= j1 < w && 0 <= j2 < w
    ensures i1 * w + j1 < i2 * w + j2 <==> i1 < i2 || (i1 == i2 && j1 < j2)
  {
    if i1 < i2 {
      MulMonotone(i1 + 1, i2, w);
    } else if i2 < i1 {
      MulMonotone(i2 + 1, i1, w);
    }
  }

  /**
   * The lat x lon distance array, flattened in row-major (lat-outer, lon-inner) order,
   * as `np.argmin` sees it; `DistanceGridAt` gives its cells.
   */
  function DistanceGrid(lats: seq<int>, lons: seq<int>, targetLat: int, targetLon: int): (d: seq<int>)
    ensures |d| == |lats| * |lons|
  {
    var h, w := |lats|, |lons|;
    seq(h * w, k requires 0 <= k < h * w =>
          Unravel(k, h, w);
          SqDist(lats[k / w], lons[k % w], targetLat, targetLon))
  }

  /** Cell (i, j) of the flattened distance array holds that cell's distance to the target. */
  lemma DistanceGridAt(lats: seq<int>, lons: seq<int>, targetLat: int, targetLon: int, i: nat, j: nat)
    requires i < |lats| && j < |lons|
    ensures i * |lons| + j < |DistanceGrid(lats, lons, targetLat, targetLon)|
    ensures DistanceGrid(lats, lons, targetLat, targetLon)[i * |lons| + j]
         == SqDist(lats[i], lons[j], targetLat, targetLon)
  {
    var h, w := |lats|, |lons|;
    FlatIndex(i, j, w);
    MulMonotone(i + 1, h, w);
    assert (i + 1) * w == i * w + w;
  }

  /**
   * One target's nearest cell as (lat index, lon index):
   * `np.unravel_index(np.argmin(distance), distance.shape)`. `np.argmin` rejects an
   * empty array, so an empty axis gives None.
   */
  function NearestCell(lats: seq<int>, lons: seq<int>, targetLat: int, targetLon: int): (r: Option<(nat, nat)>)
    ensures r.None? <==> |lats| == 0 || |lons| == 0
    ensures r.Some? ==> r.value.0 < |lats| && r.value.1 < |lons|
  {
    if |lats| == 0 || |lons| == 0 then None
    else
      var k := ArgMin(DistanceGrid(lats, lons, targetLat, targetLon));
      Unravel(k, |lats|, |lons|);
      Some((k / |lons|, k % |lons|))
  }

  /** No cell of the grid is closer to the target than cell (i, j). */
  ghost predicate IsMinimalCell(lats: seq<int>, lons: seq<int>, targetLat: int, targetLon: int, i: nat, j: nat)
    requires i < |lats| && j < |lons|
  {
    forall i', j' :: 0 <= i' < |lats| && 0 <= j' < |lons| ==>
      SqDist(lats[i], lons[j], targetLat, targetLon) <= SqDist(lats[i'], lons[j'], targetLat, targetLon)
  }

  /** Every cell before (i, j) in row-major scan order is strictly farther away. */
  ghost predicate IsFirstInScan(lats: seq<int>, lons: seq<int>, targetLat: int, targetLon: int, i: nat, j: nat)
    requires i < |lats| && j < |lons|
  {
    forall i', j' :: 0 <= i' < |lats| && 0 <= j' < |lons| && (i' < i || (i' == i && j' < j)) ==>
      SqDist(lats[i], lons[j], targetLat, targetLon) < SqDist(lats[i'], lons[j'], targetLat, targetLon)
  }

  /**
   * On a non-empty grid the selected cell is a closest one, and the first closest one
   * in row-major order, so the same grid and target always give the same cell.
   */
  lemma NearestCellIsFirstMinimal(lats: seq<int>, lons: seq<int>, targetLat: int, targetLon: int)
    requires |lats| > 0 && |lons| > 0
    ensures NearestCell(lats, lons, targetLat, targetLon).Some?
    ensures var (i, j) := NearestCell(lats, lons, targetLat, targetLon).value;
            i < |lats| && j < |lons| &&
            IsMinimalCell(lats, lons, targetLat, targetLon, i, j) &&
            IsFirstInScan(lats, lons, targetLat, targetLon, i, j)
  {
    var d := DistanceGrid(lats, lons, targetLat, targetLon);
    var w := |lons|;
    var k := ArgMin(d);
    Unravel(k, |lats|, w);
    var i, j := k / w, k % w;
    assert NearestCell(lats, lons, targetLat, targetLon) == Some((i, j));
    DistanceGridAt(lats, lons, targetLat, targetLon, i, j);
    assert i * w + j == k;
    forall i', j' | 0 <= i' < |lats| && 0 <= j' < w
      ensures SqDist(lats[i], lons[j], targetLat, targetLon) <= SqDist(lats[i'], lons[j'], targetLat, targetLon)
    {
      DistanceGridAt(lats, lons, targetLat, targetLon, i', j');
    }
    forall i', j' | 0 <= i' < |lats| && 0 <= j' < w && (i' < i || (i' == i && j' < j))
      ensures SqDist(lats[i], lons[j], targetLat, targetLon) < SqDist(lats[i'], lons[j'], targetLat, targetLon)
    {
      DistanceGridAt(lats, lons, targetLat, targetLon, i', j');
      RowMajorOrder(i', j', i, j, w);
    }
  }

  /** The coordinates of the nearest cell: `{"lat": nearest_lat, "lon": nearest_lon}`. */
  function NearestLocation(lats: seq<int>, lons: seq<int>, targetLat: int, targetLon: int): (r: Option<(int, int)>)
    ensures r.None? <==> |lats| == 0 || |lons| == 0
    ensures r.Some? ==> r.value.0 in lats && r.value.1 in lons
    ensures r.Some? ==> forall i', j' :: 0 <= i' < |lats| && 0 <= j' < |lons| ==>
              SqDist(r.value.0, r.value.1, targetLat, targetLon) <= SqDist(lats[i'], lons[j'], targetLat, targetLon)
  {
    if |lats| == 0 || |lons| == 0 then None
    else
      NearestCellIsFirstMinimal(lats, lons, targetLat, targetLon);
      var (i, j) := NearestCell(lats, lons, targetLat, targetLon).value;
      Some((lats[i], lons[j]))
  }

  /**
   * Nearest coordinate along one axis, as `sel(..., method="nearest")` picks it: pandas
   * takes the left neighbour of the target only when it is strictly closer than the right
   * one, so of two equidistant coordinates the larger wins. Among equal coordinates the
   * first is kept. An empty axis has none.
   */
  function AxisNearest(axis: seq<int>, target: int): (r: Option<nat>)
    ensures r.None? <==> |axis| == 0
    ensures r.Some? ==> r.value < |axis|
    ensures r.Some? ==> forall k :: 0 <= k < |axis| ==> AxisDist(axis[r.value], target) <= AxisDist(axis[k], target)
    ensures r.Some? ==> forall k :: 0 <= k < |axis| && AxisDist(axis[k], target) == AxisDist(axis[r.value], target) ==>
              axis[k] <= axis[r.value]
    ensures r.Some? ==> forall k :: 0 <= k < r.value ==>
              AxisDist(axis[r.value], target) < AxisDist(axis[k], target) || axis[k] < axis[r.value]
    decreases |axis|
  {
    if |axis| == 0 then None
    else if |axis| == 1 then Some(0)
    else
      var n := |axis| - 1;
      var b := AxisNearest(axis[..n], target).value;
      assert axis[..n][b] == axis[b];
      if AxisDist(axis[n], target) < AxisDist(axis[b], target)
         || (AxisDist(axis[n], target) == AxisDist(axis[b], target) && axis[b] < axis[n])
      then Some(n)
      else Some(b)
  }

  /** Two numbers with equal squares are equal or opposite. */
  lemma EqualSquares(x: int, y: int)
    requires x * x == y * y && x != y
    ensures x == -y
  {
    assert (x - y) * (x + y) == x * x - y * y;
  }

  /**
   * An exact tie goes upward: any other coordinate as close as the selected one lies
   * below the target, and the selected one above it.
   */
  lemma AxisNearestTieGoesUp(axis: seq<int>, target: int)
    requires |axis| > 0
    ensures var a := AxisNearest(axis, target).value;
            forall k :: 0 <= k < |axis| && AxisDist(axis[k], target) == AxisDist(axis[a], target) && axis[k] != axis[a] ==>
              axis[k] < target < axis[a]
  {
    var a := AxisNearest(axis, target).value;
    forall k | 0 <= k < |axis| && AxisDist(axis[k], target) == AxisDist(axis[a], target) && axis[k] != axis[a]
      ensures axis[k] < target < axis[a]
    {
      EqualSquares(axis[k] - target, axis[a] - target);
    }
  }

  /**
   * The cell the two per-axis lookups of `read_data` select is a closest cell of the whole
   * grid, and the whole-grid search of `_find_nearest_locations` lands on a closest
   * latitude and a closest longitude: the two searches differ at most in how they break ties.
   */
  lemma SelectedCellIsNearest(lats: seq<int>, lons: seq<int>, targetLat: int, targetLon: int)
    requires |lats| > 0 && |lons| > 0
    ensures AxisNearest(lats, targetLat).value < |lats| && AxisNearest(lons, targetLon).value < |lons|
    ensures IsMinimalCell(lats, lons, targetLat, targetLon, AxisNearest(lats, targetLat).value, AxisNearest(lons, targetLon).value)
    ensures var (i, j) := NearestCell(lats, lons, targetLat, targetLon).value;
            AxisDist(lats[i], targetLat) == AxisDist(lats[AxisNearest(lats, targetLat).value], targetLat) &&
            AxisDist(lons[j], targetLon) == AxisDist(lons[AxisNearest(lons, targetLon).value], targetLon)
  {
    NearestCellIsFirstMinimal(lats, lons, targetLat, targetLon);
    var (i, j) := NearestCell(lats, lons, targetLat, targetLon).value;
    var a, b := AxisNearest(lats, targetLat).value, AxisNearest(lons, targetLon).value;
    // (a, b) is no farther than (i, j) and vice versa, so both axis distances agree.
    assert SqDist(lats[i], lons[j], targetLat, targetLon) <= SqDist(lats[a], lons[b], targetLat, targetLon);
    assert AxisDist(lats[a], targetLat) <= AxisDist(lats[i], targetLat);
    assert AxisDist(lons[b], targetLon) <= AxisDist(lons[j], targetLon);
  }

  /** When no two coordinates of an axis are equally far from the target, both searches pick the same cell. */
  lemma SearchesAgreeWithoutTie(lats: seq<int>, lons: seq<int>, targetLat: int, targetLon: int)
    requires |lats| > 0 && |lons| > 0
    requires forall k, k' :: 0 <= k < k' < |lats| ==> AxisDist(lats[k], targetLat) != AxisDist(lats[k'], targetLat)
    requires forall k, k' :: 0 <= k < k' < |lons| ==> AxisDist(lons[k], targetLon) != AxisDist(lons[k'], targetLon)
    ensures NearestCell(lats, lons, targetLat, targetLon)
         == Some((AxisNearest(lats, targetLat).value, AxisNearest(lons, targetLon).value))
  {
    // Both picks are at the closest distance on each axis, and only one position is.
    SelectedCellIsNearest(lats, lons, targetLat, targetLon);
  }

  /**
   * On a tie the two searches part: with longitudes 99.75 and 100.25 and a target at
   * 100, `np.argmin` keeps the first cell and `sel` takes the larger longitude.
   */
  lemma SearchesDifferOnTie()
    ensures NearestCell([0], [9975, 10025], 0, 10000) == Some((0, 0))
    ensures AxisNearest([0], 0) == Some(0) && AxisNearest([9975, 10025], 10000) == Some(1)
  {
    var lats, lons := [0], [9975, 10025];
    NearestCellIsFirstMinimal(lats, lons, 0, 10000);
    assert SqDist(lats[0], lons[0], 0, 10000) == SqDist(lats[0], lons[1], 0, 10000);
  }
}
