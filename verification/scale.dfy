/**
 * The `timeseries` scale object: the normalised timeline it keeps after
 * `determineDataLimits`, the tick arrays `buildTicks` stores on it, and
 * the mapping between timeline slots and pixels.
 */
module Scales {
  import opened Wrappers
  import opened JsBuiltins
  import opened TimeLib
  import opened Normalizer
  import opened TickSelection

  /** `Math.max(count - (offsetGridLines ? 0 : 1), 1)`: the number of slots the width is divided into. */
  function OffsetAmount(count: int, offsetGridLines: bool): (r: int)
    ensures r >= 1 && r >= count - (if offsetGridLines then 0 else 1)
    ensures r == 1 || r == count - (if offsetGridLines then 0 else 1)
  {
    var slots := count - (if offsetGridLines then 0 else 1);
    if slots > 1 then slots else 1
  }

  /** `series[index]`, where reading past the end or a hole yields `undefined`. */
  function StampAt(series: seq<Option<int>>, index: int): Option<int> {
    if 0 <= index < |series| then series[index] else None
  }

  /** `timeOpts.unit || determineUnit(...)`: a configured unit wins over the determined one. */
  function ChosenUnit(configuredUnit: Option<Unit>, determinedUnit: Unit): (r: Unit)
    ensures configuredUnit.Some? ==> r == configuredUnit.value
    ensures configuredUnit.None? ==> r == determinedUnit
  {
    if configuredUnit.Some? then configuredUnit.value else determinedUnit
  }

  /**
   * `determineMajorUnit(unit)` as a table: the next larger unit the labels
   * are grouped by, or none when `unit` has no entry.
   */
  function MajorUnitOf(majorUnits: map<Unit, Unit>, unit: Unit): (r: Option<Unit>)
    ensures r.Some? <==> unit in majorUnits
    ensures r.Some? ==> r.value == majorUnits[unit]
  {
    if unit in majorUnits then Some(majorUnits[unit]) else None
  }

  lemma UnderCapacity(n: nat, maxTicks: int)
    requires 0 < maxTicks && n < maxTicks
    ensures n as real / maxTicks as real < 1.0
  {
    var q := n as real / maxTicks as real;
    assert q * maxTicks as real == n as real;
  }

  /**
   * What `buildTicks` relies on from the decimated arrays, with
   * `skipCount = n / maxTicks`: paired, strictly ascending indexes inside
   * the timeline ending on its last point; every point below capacity;
   * and, whatever the major unit, at most `maxTicks + 1` ticks when no
   * point before the last is falsy.
   */
  lemma DecimationFacts(all: seq<Option<int>>, maxTicks: int, major: Option<Unit>, moment: Moment)
    requires maxTicks > 0
    ensures var s := Decimate(all, |all| as real / maxTicks as real, major, moment, |all|);
      |s.ticks| == |s.indexes| && StrictlyIncreasing(s.indexes) &&
      (forall j :: 0 <= j < |s.indexes| ==> 0 <= s.indexes[j] < |all|) &&
      (|s.ticks| == 0 <==> |all| == 0) &&
      (|all| > 0 ==> s.indexes[|s.indexes| - 1] == |all| - 1) &&
      (|all| < maxTicks ==> s.indexes == seq(|all|, j => j)) &&
      (NoFalsyBeforeLast(all) ==> |s.ticks| <= maxTicks + 1)
  {
    var skipCount := |all| as real / maxTicks as real;
    DecimateShape(all, skipCount, major, moment);
    if |all| < maxTicks {
      UnderCapacity(|all|, maxTicks);
      EveryPointUnderCapacity(all, skipCount, major, moment, |all|);
    }
    if NoFalsyBeforeLast(all) {
      TickCountWithinCapacity(all, maxTicks, major, moment);
    }
  }

  lemma RoundOfInteger(n: int)
    ensures MathRound(n as real) == n
  {
  }

  /** Two positions at least one pixel apart round to different pixels. */
  lemma RoundSeparates(x: real, y: real)
    requires x + 1.0 <= y
    ensures MathRound(x) < MathRound(y)
  {
  }

  /**
   * A pixel offset `p` rounded from `slot * i` maps back to slot `i`
   * when slots are at least one pixel wide.
   */
  lemma SlotRecovered(p: real, slot: real, i: int)
    requires slot >= 1.0 && i >= 0
    requires slot * i as real - 0.5 < p <= slot * i as real + 0.5
    requires slot == 1.0 ==> p == i as real
    ensures p > 0.0 ==> MathRound(p / slot) == i
    ensures p <= 0.0 ==> i == 0
  {
    if i >= 1 {
      ScaleMonotone(slot - 1.0, 0, i);
    }
    var q := p / slot;
    assert q * slot == p;
    if slot == 1.0 {
      RoundOfInteger(i);
    } else {
      assert (i as real - 0.5) * slot < p;
      assert p < (i as real + 0.5) * slot;
      assert i as real - 0.5 < q < i as real + 0.5;
    }
  }

  /** The pixel of slot `index`: the whole pixel nearest `left + slot * index`, half a slot further when centred. */
  function PixelAt(left: real, slot: real, index: int, centred: bool): (r: real)
    ensures var exact := left + slot * index as real + (if centred then slot / 2.0 else 0.0);
      exact - 0.5 < r <= exact + 0.5 && (r - left).Floor as real == r - left
  {
    left + MathRound(slot * index as real + (if centred then slot / 2.0 else 0.0)) as real
  }

  /**
   * The slot nearest `pixel`, 0 left of the first slot; `None` stands for
   * the `Infinity` a zero slot width gives past the first slot.
   */
  function SlotOfPixel(left: real, slot: real, offsetGridLines: bool, pixel: real): (r: Option<int>)
    ensures var p := pixel - left - (if offsetGridLines then slot / 2.0 else 0.0);
      (p <= 0.0 ==> r == Some(0)) &&
      (p > 0.0 && slot != 0.0 ==> r.Some? && p / slot - 0.5 < r.value as real <= p / slot + 0.5) &&
      (p > 0.0 && slot == 0.0 ==> r.None?)
    ensures slot >= 0.0 && r.Some? ==> r.value >= 0
  {
    var offset := pixel - left;
    var offset' := if offsetGridLines then offset - slot / 2.0 else offset;
    if offset' <= 0.0 then Some(0)
    else if slot == 0.0 then None
    else Some(MathRound(offset' / slot))
  }

  lemma ScaleMonotone(slot: real, i: int, j: int)
    requires slot >= 0.0 && i <= j
    ensures slot * i as real <= slot * j as real
  {
    assert slot * j as real - slot * i as real == slot * (j - i) as real;
  }

  /** With a non-negative slot width, later slots never lie further left. */
  lemma PixelAtMonotone(left: real, slot: real, i: int, j: int, centred: bool)
    requires slot >= 0.0 && i <= j
    ensures PixelAt(left, slot, i, centred) <= PixelAt(left, slot, j, centred)
  {
    ScaleMonotone(slot, i, j);
    var half := if centred then slot / 2.0 else 0.0;
    var x, y := slot * i as real + half, slot * j as real + half;
    assert x <= y;
    MathRoundMonotone(x, y);
  }

  /** With slots at least a pixel wide, distinct slots get distinct, ordered pixels. */
  lemma PixelAtSeparates(left: real, slot: real, i: int, j: int, centred: bool)
    requires slot >= 1.0 && i < j
    ensures PixelAt(left, slot, i, centred) < PixelAt(left, slot, j, centred)
  {
    ScaleMonotone(slot - 1.0, i + 1, j);
    assert slot * (i + 1) as real == slot * i as real + slot;
    var half := if centred then slot / 2.0 else 0.0;
    RoundSeparates(slot * i as real + half, slot * j as real + half);
  }

  /** With slots at least a pixel wide, the slot of the pixel of slot `i` is `i`. */
  lemma PixelAtRoundTrip(left: real, slot: real, i: int)
    requires slot >= 1.0 && i >= 0
    ensures SlotOfPixel(left, slot, false, PixelAt(left, slot, i, false)) == Some(i)
  {
    var p := PixelAt(left, slot, i, false) - left;
    assert p == MathRound(slot * i as real) as real;
    if slot == 1.0 {
      RoundOfInteger(i);
    }
    SlotRecovered(p, slot, i);
  }

  /**
   * The forward map divides the width by the master-timeline length, the
   * inverse by the tick count: with 100 pixels, 11 timeline points and 6
   * ticks, slot 4 is drawn at pixel 40, which maps back to slot 2.
   */
  lemma MismatchedCountsBreakRoundTrip()
    ensures var forward := 100.0 / OffsetAmount(11, false) as real;
      var inverse := 100.0 / OffsetAmount(6, false) as real;
      PixelAt(0.0, forward, 4, false) == 40.0 && SlotOfPixel(0.0, inverse, false, 40.0) == Some(2)
  {
    RoundOfInteger(40);
    RoundOfInteger(2);
  }

  /**
   * The capacity test is strict: three labels with room for three ticks give
   * `skipCount` 1, and the middle point, only one point after the first
   * tick, is left out.
   */
  lemma FullCapacityShowsAlternatePoints()
    ensures Decimate([Some(1), Some(2), Some(3)], 3 as real / 3 as real, None, Moment((u: Unit, t: int) => t, 0), 3).indexes
      == [0, 2]
  {
    var timeline := [Some(1), Some(2), Some(3)];
    var moment := Moment((u: Unit, t: int) => t, 0);
    assert Decimate(timeline, 1.0, None, moment, 2).indexes == [0] by {
      assert Decimate(timeline, 1.0, None, moment, 1).indexes == [0];
    }
  }

  lemma SlotAtLeastOne(width: real, amount: int)
    requires amount >= 1 && width >= amount as real
    ensures width / amount as real >= 1.0
  {
    var q := width / amount as real;
    assert q * amount as real == width;
  }

  class TimeSeriesScale {
    // geometry, set by the chart's layout
    var left: real
    var width: real
    var bottom: real
    var offsetGridLines: bool
    // `_parsedData`
    var labelTimestamps: seq<Option<int>>
    var datasetTimestamps: seq<seq<Option<int>>>
    var allTimestamps: seq<Option<int>>
    // what `buildTicks` stores
    var unit: Option<Unit>
    var majorUnit: Option<Unit>
    var ticks: seq<Option<int>>
    var tickIndexes: seq<int>
    var tickTimestamps: seq<Option<int>>

    /** The tick arrays pair up, and the indexes strictly ascend inside the tick timeline. */
    ghost predicate Valid()
      reads this
    {
      |ticks| == |tickIndexes| && StrictlyIncreasing(tickIndexes) &&
      forall j :: 0 <= j < |tickIndexes| ==> 0 <= tickIndexes[j] < |tickTimestamps|
    }

    constructor (left: real, width: real, bottom: real, offsetGridLines: bool)
      ensures Valid()
      ensures this.left == left && this.width == width && this.bottom == bottom
      ensures this.offsetGridLines == offsetGridLines
      ensures labelTimestamps == [] && datasetTimestamps == [] && allTimestamps == []
      ensures unit.None? && majorUnit.None?
      ensures ticks == [] && tickIndexes == [] && tickTimestamps == []
    {
      this.left, this.width, this.bottom := left, width, bottom;
      this.offsetGridLines := offsetGridLines;
      labelTimestamps, datasetTimestamps, allTimestamps := [], [], [];
      unit, majorUnit := None, None;
      ticks, tickIndexes, tickTimestamps := [], [], [];
    }

    /**
     * Parses the labels and every dataset into sparse timestamp arrays,
     * then concatenates them and keeps each value once, in ascending order
     * with `undefined` last.
     */
    method DetermineDataLimits<T>(data: ChartData<T>, host: Host<T>, round: Option<Unit>, moment: Moment)
      modifies this
      ensures labelTimestamps == TimestampsOf(GetLabels(data), LabelTime(host, round, moment))
      ensures |datasetTimestamps| == |data.datasets|
      ensures forall d :: 0 <= d < |data.datasets| ==>
        datasetTimestamps[d] == DatasetTimes(host, data.datasets[d], d, labelTimestamps, round, moment)
      ensures StrictlySortedNumeric(allTimestamps)
      ensures forall x :: x in allTimestamps <==>
        x in labelTimestamps || exists d :: 0 <= d < |datasetTimestamps| && x in datasetTimestamps[d]
      ensures left == old(left) && width == old(width) && bottom == old(bottom)
      ensures offsetGridLines == old(offsetGridLines)
      ensures unit == old(unit) && majorUnit == old(majorUnit)
      ensures ticks == old(ticks) && tickIndexes == old(tickIndexes) && tickTimestamps == old(tickTimestamps)
    {
      var labelStamps := ParseSeries(GetLabels(data), LabelTime(host, round, moment));
      var sets := ParseDatasets(data.datasets, host, labelStamps, round, moment);
      var all := MergeTimestamps(labelStamps, sets);
      labelTimestamps, datasetTimestamps, allTimestamps := labelStamps, sets, all;
    }

    /**
     * Chooses the unit, decimates the master timeline to about `maxTicks`
     * ticks and stores the tick arrays.
     */
    method BuildTicks(configuredUnit: Option<Unit>, determinedUnit: Unit, majorUnits: map<Unit, Unit>,
                      maxTicks: int, moment: Moment)
      requires maxTicks > 0
      modifies this
      ensures unit == Some(ChosenUnit(configuredUnit, determinedUnit))
      ensures majorUnit == MajorUnitOf(majorUnits, ChosenUnit(configuredUnit, determinedUnit))
      ensures TickState(ticks, tickIndexes) ==
        Decimate(old(allTimestamps), |old(allTimestamps)| as real / maxTicks as real,
                 MajorUnitOf(majorUnits, ChosenUnit(configuredUnit, determinedUnit)), moment, |old(allTimestamps)|)
      ensures tickTimestamps == allTimestamps && Valid()
      ensures left == old(left) && width == old(width) && bottom == old(bottom)
      ensures offsetGridLines == old(offsetGridLines)
      ensures labelTimestamps == old(labelTimestamps) && datasetTimestamps == old(datasetTimestamps)
      ensures allTimestamps == old(allTimestamps)
    {
      var chosen := ChosenUnit(configuredUnit, determinedUnit);
      var major := MajorUnitOf(majorUnits, chosen);
      var all := allTimestamps;
      var selected, indexes := SelectTicks(all, |all| as real / maxTicks as real, major, moment);
      unit, majorUnit := Some(chosen), major;
      tickTimestamps, ticks, tickIndexes := all, selected, indexes;
    }

    /** Whether a value is drawn in the middle of its slot rather than on its left edge. */
    predicate Centred(includeOffset: bool)
      reads this
    {
      (offsetGridLines && includeOffset) || (|ticks| == 1 && includeOffset)
    }

    /** The width of one slot when `count` values share the scale. */
    function SlotWidth(count: int): real
      reads this
    {
      width / OffsetAmount(count, offsetGridLines) as real
    }

    /**
     * The slot a value is drawn in: for a dataset value, the first
     * position of its timestamp on the tick timeline when it is there, and
     * the given index otherwise.
     */
    function ResolvedIndex(index: int, datasetIndex: Option<int>): (r: int)
      reads this
      requires datasetIndex.Some? ==> 0 <= datasetIndex.value < |datasetTimestamps|
      ensures datasetIndex.None? ==> r == index
      ensures datasetIndex.Some? ==>
        var stamp := StampAt(datasetTimestamps[datasetIndex.value], index);
        (stamp in tickTimestamps ==> 0 <= r < |tickTimestamps| && tickTimestamps[r] == stamp && stamp !in tickTimestamps[..r]) &&
        (stamp !in tickTimestamps ==> r == index)
    {
      if datasetIndex.None? then index
      else
        var found := IndexOf(tickTimestamps, StampAt(datasetTimestamps[datasetIndex.value], index));
        if found != -1 then found else index
    }

    /**
     * The pixel for slot `index` (or, for a dataset value, the slot of its
     * timestamp): the whole pixel nearest `left + slot * index`, moved half
     * a slot right when centred. `value` is not consulted.
     */
    function GetPixelForValue(value: Option<int>, index: int, datasetIndex: Option<int>, includeOffset: bool): (r: real)
      reads this
      requires datasetIndex.Some? ==> 0 <= datasetIndex.value < |datasetTimestamps|
      ensures var slot := SlotWidth(|tickTimestamps|);
        var exact := left + slot * ResolvedIndex(index, datasetIndex) as real + (if Centred(includeOffset) then slot / 2.0 else 0.0);
        exact - 0.5 < r <= exact + 0.5 && (r - left).Floor as real == r - left
    {
      PixelAt(left, SlotWidth(|tickTimestamps|), ResolvedIndex(index, datasetIndex), Centred(includeOffset))
    }

    /**
     * The pixel of tick `index`, placed at the slot of its timeline index;
     * a lone tick is always centred. An index with no tick gives `NaN`,
     * here `None`.
     */
    function GetPixelForTick(index: int, includeOffset: bool): (r: Option<real>)
      reads this
      ensures r.Some? <==> 0 <= index < |tickIndexes|
      ensures r.Some? ==>
        var slot := SlotWidth(|tickTimestamps|);
        var centred := (offsetGridLines && includeOffset) || |ticks| == 1;
        var exact := left + slot * tickIndexes[index] as real + (if centred then slot / 2.0 else 0.0);
        exact - 0.5 < r.value <= exact + 0.5 && (r.value - left).Floor as real == r.value - left
    {
      var includeOffset' := if |ticks| == 1 then true else includeOffset;
      if 0 <= index < |tickIndexes| then
        Some(GetPixelForValue(StampAt(ticks, index), tickIndexes[index], None, includeOffset'))
      else
        None
    }

    /**
     * The slot nearest a pixel, 0 left of the first slot. A zero width
     * gives `Infinity` past the first slot, here `None`.
     */
    function GetValueForPixel(pixel: real): (r: Option<int>)
      reads this
      ensures var slot := SlotWidth(|ticks|);
        var p := pixel - left - (if offsetGridLines then slot / 2.0 else 0.0);
        (p <= 0.0 ==> r == Some(0)) &&
        (p > 0.0 && slot != 0.0 ==> r.Some? && p / slot - 0.5 < r.value as real <= p / slot + 0.5) &&
        (p > 0.0 && slot == 0.0 ==> r.None?)
      ensures width >= 0.0 && r.Some? ==> r.value >= 0
    {
      SlotOfPixel(left, SlotWidth(|ticks|), offsetGridLines, pixel)
    }

    /** The base line of the scale is its bottom edge. */
    function GetBasePixel(): (r: real)
      reads this
      ensures r == bottom
    {
      bottom
    }

    /** With a non-negative width, later slots never map to pixels further left. */
    lemma PixelForValueMonotone(i: int, j: int, includeOffset: bool)
      requires width >= 0.0 && i <= j
      ensures GetPixelForValue(None, i, None, includeOffset) <= GetPixelForValue(None, j, None, includeOffset)
    {
      PixelAtMonotone(left, SlotWidth(|tickTimestamps|), i, j, Centred(includeOffset));
    }

    /** When every slot is at least a pixel wide, tick pixels strictly increase with the tick. */
    lemma TickPixelsIncrease(j: int, k: int, includeOffset: bool)
      requires Valid() && width >= OffsetAmount(|tickTimestamps|, offsetGridLines) as real
      requires 0 <= j < k < |ticks|
      ensures GetPixelForTick(j, includeOffset).Some? && GetPixelForTick(k, includeOffset).Some?
      ensures GetPixelForTick(j, includeOffset).value < GetPixelForTick(k, includeOffset).value
    {
      SlotAtLeastOne(width, OffsetAmount(|tickTimestamps|, offsetGridLines));
      var inc := if |ticks| == 1 then true else includeOffset;
      PixelAtSeparates(left, SlotWidth(|tickTimestamps|), tickIndexes[j], tickIndexes[k], Centred(inc));
    }

    /** The pixel of a lone tick does not depend on `includeOffset`. */
    lemma LoneTickCentred(includeOffset: bool)
      requires |ticks| == 1 && |tickIndexes| == 1
      ensures GetPixelForTick(0, includeOffset) == GetPixelForTick(0, true)
    {
    }

    /**
     * Without grid-line offset, when the forward and inverse maps divide
     * the width into the same number of slots of at least a pixel each,
     * the slot of a value's pixel is the value's index.
     */
    lemma PixelRoundTrip(i: int)
      requires !offsetGridLines && i >= 0
      requires OffsetAmount(|ticks|, false) == OffsetAmount(|tickTimestamps|, false)
      requires width >= OffsetAmount(|ticks|, false) as real
      ensures GetValueForPixel(GetPixelForValue(None, i, None, false)) == Some(i)
    {
      SlotAtLeastOne(width, OffsetAmount(|ticks|, false));
      PixelAtRoundTrip(left, SlotWidth(|ticks|), i);
    }
  }
}
