/**
 * The time axis: its latest timestamp (`get_curr_time_value`) and the trailing window
 * `isel(time=slice(-days, None))` that `read_data` keeps. Timestamps are integers.
 */
module TimeWindow {
  import opened Wrappers

  function Min(a: int, b: int): (m: int)
  {
    if a <= b then a else b
  }

  /** Where Python starts `s[start:]` on a sequence of length n (negative starts count from the end, then clamp). */
  function SliceStart(start: int, n: nat): (r: nat)
    ensures r <= n
  {
    if start < 0 then (if start + n < 0 then 0 else start + n)
    else if start > n then n
    else start
  }

  /** `s[-days:]`, the rows that `isel(time=slice(-1 * days, None))` keeps. */
  function TrailingWindow<T>(s: seq<T>, days: int): (w: seq<T>)
    ensures |w| <= |s|
    ensures w == s[|s| - |w|..]
  {
    s[SliceStart(-days, |s|)..]
  }

  /** For days >= 1 the window is the last min(days, T) rows, in their original order. */
  lemma WindowKeepsLast<T>(s: seq<T>, days: int)
    requires days >= 1
    ensures |TrailingWindow(s, days)| == Min(days, |s|)
    ensures forall k :: 0 <= k < Min(days, |s|) ==>
              TrailingWindow(s, days)[k] == s[|s| - Min(days, |s|) + k]
  {
  }

  /** Since -0 == 0, a window of 0 days keeps the whole axis; so does any days >= T. */
  lemma WindowKeepsAll<T>(s: seq<T>, days: int)
    requires days == 0 || days >= |s|
    ensures TrailingWindow(s, days) == s
  {
  }

  /** A negative day count turns the slice around: it drops the first -days rows. */
  lemma WindowNegativeDropsFirst<T>(s: seq<T>, days: int)
    requires days < 0
    ensures TrailingWindow(s, days) == s[Min(-days, |s|)..]
  {
  }

  /** `time_values[-1]`: the last timestamp, or None when the axis is empty (indexing fails). */
  function LastTime(times: seq<int>): (r: Option<int>)
    ensures r.None? <==> |times| == 0
    ensures r.Some? ==> r.value in times
  {
    if |times| == 0 then None else Some(times[|times| - 1])
  }

  predicate Ascending(times: seq<int>)
  {
    forall i, j :: 0 <= i < j < |times| ==> times[i] < times[j]
  }

  /** On an ascending time axis the last timestamp is the latest one. */
  lemma LastTimeIsLatest(times: seq<int>)
    requires Ascending(times) && |times| > 0
    ensures forall t :: t in times ==> t <= LastTime(times).value
  {
    forall t | t in times
      ensures t <= LastTime(times).value
    {
      var k :| 0 <= k < |times| && times[k] == t;
      assert k == |times| - 1 || times[k] < times[|times| - 1];
    }
  }

  /** A non-empty window ends where the whole axis ends: it has the same latest timestamp. */
  lemma WindowKeepsLastTime(times: seq<int>, days: int)
    requires |TrailingWindow(times, days)| > 0
    ensures LastTime(TrailingWindow(times, days)) == LastTime(times)
  {
    var w := TrailingWindow(times, days);
    assert w[|w| - 1] == times[|times| - 1];
  }

  /** A window of an ascending axis is ascending. */
  lemma WindowAscending(times: seq<int>, days: int)
    requires Ascending(times)
    ensures Ascending(TrailingWindow(times, days))
  {
  }
}
