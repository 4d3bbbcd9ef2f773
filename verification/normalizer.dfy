/**
 * Timeline normalisation of the time-series scale: labels and dataset
 * points are parsed into millisecond timestamps (positionally, an invalid
 * value leaving a hole), optionally truncated to the start of the `round`
 * unit, then merged, deduplicated and sorted into the master timeline.
 */
module Normalizer {
  import opened Wrappers
  import opened JsBuiltins
  import opened TimeLib

  /** The chart-side collaborators the scale consults. */
  datatype Host<!T> = Host(
    parseTime: T -> Option<int>,    // timeHelpers.parseTime then valueOf(); None when the moment is invalid
    getRightValue: T -> T,          // the value of a data point that lies on this axis
    isObject: T -> bool,            // typeof v === 'object' && v !== null
    isDatasetVisible: int -> bool)  // chart.isDatasetVisible

  /** `chart.data`: optional explicit x labels, the labels, and each dataset's `data` array. */
  datatype ChartData<T> = ChartData(xLabels: Option<seq<T>>, labels: seq<T>, datasets: seq<seq<T>>)

  /** `data.xLabels || data.labels`: explicit x labels win whenever present, even when empty. */
  function GetLabels<T>(data: ChartData<T>): (r: seq<T>)
    ensures data.xLabels.Some? ==> r == data.xLabels.value
    ensures data.xLabels.None? ==> r == data.labels
  {
    if data.xLabels.Some? then data.xLabels.value else data.labels
  }

  /** `arrayUnique`: keeps the first occurrence of every element, in order. */
  method ArrayUnique<T(==)>(arr: seq<T>) returns (result: seq<T>)
    ensures NoDuplicates(result)
    ensures forall x :: x in result <==> x in arr
    ensures forall a, b :: 0 <= a < b < |result| ==> IndexOf(arr, result[a]) < IndexOf(arr, result[b])
  {
    result := [];
    var i := 0;
    while i < |arr|
      invariant i <= |arr|
      invariant NoDuplicates(result)
      invariant forall x :: x in result <==> x in arr[..i]
      invariant forall a :: 0 <= a < |result| ==> 0 <= IndexOf(arr, result[a]) < i
      invariant forall a, b :: 0 <= a < b < |result| ==> IndexOf(arr, result[a]) < IndexOf(arr, result[b])
    {
      assert arr[..i + 1] == arr[..i] + [arr[i]];
      if IndexOf(result, arr[i]) == -1 {
        IndexOfPrefix(arr, arr[i], i);
        IndexOfPrefix(arr, arr[i], i + 1);
        result := result + [arr[i]];
      }
      i := i + 1;
    }
    assert arr[..i] == arr;
  }

  /** A parsed moment as the scale stores it: `valueOf()`, after `startOf(round)` when `round` is set. */
  function StoredTime(parsed: Option<int>, round: Option<Unit>, moment: Moment): Option<int> {
    match parsed
    case None => None
    case Some(ms) => Some(if round.Some? then moment.startOf(round.value, ms) else ms)
  }

  function RoundedTime<T>(parse: T -> Option<int>, round: Option<Unit>, moment: Moment): T -> Option<int> {
    v => StoredTime(parse(v), round, moment)
  }

  function LabelTime<T>(host: Host<T>, round: Option<Unit>, moment: Moment): T -> Option<int> {
    RoundedTime(host.parseTime, round, moment)
  }

  function PointTime<T>(host: Host<T>, round: Option<Unit>, moment: Moment): T -> Option<int> {
    RoundedTime(v => host.parseTime(host.getRightValue(v)), round, moment)
  }

  /** The time of every value, position by position. */
  function Positional<T>(values: seq<T>, timeOf: T -> Option<int>): (r: seq<Option<int>>)
    ensures |r| == |values| && forall j :: 0 <= j < |values| ==> r[j] == timeOf(values[j])
  {
    seq(|values|, j requires 0 <= j < |values| => timeOf(values[j]))
  }

  /**
   * The JavaScript array a run of stores `a[k] = v` with increasing `k` leaves
   * behind: unstored positions are holes and the length ends at the last
   * store, so no hole trails.
   */
  function Trim(s: seq<Option<int>>): (r: seq<Option<int>>)
    ensures |r| <= |s| && r == s[..|r|]
    ensures forall j :: |r| <= j < |s| ==> s[j].None?
    ensures r == [] || r[|r| - 1].Some?
  {
    if |s| > 0 && s[|s| - 1].None? then Trim(s[..|s| - 1]) else s
  }

  /** The timestamps a parsing loop stores for `values`. */
  function TimestampsOf<T>(values: seq<T>, timeOf: T -> Option<int>): seq<Option<int>> {
    Trim(Positional(values, timeOf))
  }

  lemma TrimAppend(s: seq<Option<int>>, x: Option<int>)
    ensures Trim(s + [x]) == if x.None? then Trim(s) else s + [x]
  {
    assert (s + [x])[..|s|] == s;
  }

  lemma StoreAfterTrim(s: seq<Option<int>>, v: int)
    ensures SparseStore(Trim(s), |s|, v) == s + [Some(v)]
  {
    var t := Trim(s);
    var a := SparseStore(t, |s|, v);
    var b := s + [Some(v)];
    assert |a| == |b|;
    forall j | 0 <= j < |a| ensures a[j] == b[j] {
      if j < |t| {
        assert a[j] == t[j] == s[j];
      } else if j < |s| {
        assert a[j] == None;
      }
    }
  }

  /** A positional parsing loop: `timestamps[i] = time` for every valid time, as `determineDataLimits` runs it. */
  method ParseSeries<T>(values: seq<T>, timeOf: T -> Option<int>) returns (stamps: seq<Option<int>>)
    ensures stamps == TimestampsOf(values, timeOf)
  {
    stamps := [];
    var i := 0;
    while i < |values|
      invariant i <= |values|
      invariant stamps == Trim(Positional(values[..i], timeOf))
    {
      var time := timeOf(values[i]);
      ghost var before := Positional(values[..i], timeOf);
      assert Positional(values[..i + 1], timeOf) == before + [time];
      TrimAppend(before, time);
      if time.Some? {
        StoreAfterTrim(before, time.value);
        stamps := SparseStore(stamps, i, time.value);
      }
      i := i + 1;
    }
    assert values[..i] == values;
  }

  /**
   * Position by position, the stored timestamps are the parsed times; no
   * valid time lies past their end, and they never end in a hole.
   */
  lemma {:induction false} TimestampsOfPositions<T>(values: seq<T>, timeOf: T -> Option<int>)
    ensures var r := TimestampsOf(values, timeOf);
      |r| <= |values| &&
      (forall j :: 0 <= j < |r| ==> r[j] == timeOf(values[j])) &&
      (forall j :: |r| <= j < |values| ==> timeOf(values[j]).None?) &&
      (r == [] || r[|r| - 1].Some?)
  {
    var p := Positional(values, timeOf);
    var r := Trim(p);
    forall j | 0 <= j < |r| ensures r[j] == timeOf(values[j]) {
      assert r[j] == p[j];
    }
    forall j | |r| <= j < |values| ensures timeOf(values[j]).None? {
      assert p[j].None?;
    }
  }

  /** With `round` set, every stored timestamp is already the start of a `round` unit. */
  lemma RoundedTimesAreUnitStarts<T>(values: seq<T>, parse: T -> Option<int>, round: Option<Unit>, moment: Moment)
    requires ValidStartOf(moment.startOf) && round.Some?
    ensures var r := TimestampsOf(values, RoundedTime(parse, round, moment));
      forall j :: 0 <= j < |r| && r[j].Some? ==> moment.startOf(round.value, r[j].value) == r[j].value
  {
    var timeOf := RoundedTime(parse, round, moment);
    var r := TimestampsOf(values, timeOf);
    TimestampsOfPositions(values, timeOf);
    forall j | 0 <= j < |r| && r[j].Some? ensures moment.startOf(round.value, r[j].value) == r[j].value {
      var ms := parse(values[j]).value;
      assert r[j].value == moment.startOf(round.value, ms);
    }
  }

  /** A dataset is parsed as point data when its first element is a non-null object and it is visible. */
  predicate IsPointData<T>(host: Host<T>, points: seq<T>, datasetIndex: int) {
    |points| > 0 && host.isObject(points[0]) && host.isDatasetVisible(datasetIndex)
  }

  /** `allTimestamps.concat(value)` over every dataset in turn. */
  function Concat(ss: seq<seq<Option<int>>>): (r: seq<Option<int>>)
    ensures forall x :: x in r <==> exists e :: 0 <= e < |ss| && x in ss[e]
  {
    if ss == [] then [] else
      var init := ss[..|ss| - 1];
      var r := Concat(init) + ss[|ss| - 1];
      assert forall e :: 0 <= e < |init| ==> init[e] == ss[e];
      r
  }

  /**
   * The master timeline is determined by its values alone: any strictly
   * sorted array holding exactly the deduplicated values is the one that
   * sorting produces.
   */
  lemma MasterTimeline(u: seq<Option<int>>, r: seq<Option<int>>)
    requires NoDuplicates(u)
    requires StrictlySortedNumeric(r) && forall x :: x in r <==> x in u
    ensures r == SortNumeric(u)
  {
    SortDistinct(u);
    StrictlySortedUnique(SortNumeric(u), r);
  }

  /** The timestamps stored for dataset `datasetIndex`: its own points' times, or a copy of the labels' times. */
  function DatasetTimes<T>(host: Host<T>, points: seq<T>, datasetIndex: int, labelStamps: seq<Option<int>>,
                           round: Option<Unit>, moment: Moment): seq<Option<int>> {
    if IsPointData(host, points, datasetIndex) then TimestampsOf(points, PointTime(host, round, moment))
    else labelStamps
  }

  /** The loop over `chartData.datasets`: one timestamp array per dataset, in order. */
  method ParseDatasets<T>(datasets: seq<seq<T>>, host: Host<T>, labelStamps: seq<Option<int>>,
                          round: Option<Unit>, moment: Moment)
    returns (sets: seq<seq<Option<int>>>)
    ensures |sets| == |datasets|
    ensures forall d :: 0 <= d < |datasets| ==> sets[d] == DatasetTimes(host, datasets[d], d, labelStamps, round, moment)
  {
    sets := [];
    var d := 0;
    while d < |datasets|
      invariant d <= |datasets| && |sets| == d
      invariant forall e :: 0 <= e < d ==> sets[e] == DatasetTimes(host, datasets[e], e, labelStamps, round, moment)
    {
      var timestamps;
      if IsPointData(host, datasets[d], d) {
        timestamps := ParseSeries(datasets[d], PointTime(host, round, moment));
      } else {
        timestamps := labelStamps;
      }
      sets := sets + [timestamps];
      d := d + 1;
    }
  }

  /**
   * The label timestamps followed by every dataset's, concatenated, each
   * value kept once and sorted: a master timeline holding exactly the
   * values that occur in any of them.
   */
  method MergeTimestamps(labelStamps: seq<Option<int>>, sets: seq<seq<Option<int>>>) returns (all: seq<Option<int>>)
    ensures StrictlySortedNumeric(all)
    ensures forall x :: x in all <==> x in labelStamps || exists d :: 0 <= d < |sets| && x in sets[d]
  {
    var joined := labelStamps;
    var e := 0;
    while e < |sets|
      invariant e <= |sets|
      invariant joined == labelStamps + Concat(sets[..e])
    {
      assert sets[..e + 1] == sets[..e] + [sets[e]];
      joined := joined + sets[e];
      e := e + 1;
    }
    assert sets[..e] == sets;
    var unique := ArrayUnique(joined);
    SortDistinct(unique);
    all := SortNumeric(unique);
  }
}
