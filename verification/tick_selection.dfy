/**
 * Tick decimation of the time-series scale (`buildTicks`): one greedy pass
 * over the master timeline that keeps two parallel arrays, the displayed
 * tick values and their positions in the timeline. A point is shown when it
 * is the first one, when it starts a new major unit (collapsing onto the last
 * tick when that is closer than `skipCount`, and then re-centring the tick
 * before it), when it lies more than `skipCount` after the last shown point,
 * or when it is the final point.
 */
module TickSelection {
  import opened Wrappers
  import opened JsBuiltins
  import opened TimeLib

  /** The arrays `ticks` and `tickIndexes`. */
  datatype TickState = TickState(ticks: seq<Option<int>>, indexes: seq<int>)

  predicate StrictlyIncreasing(s: seq<int>) {
    forall a, b :: 0 <= a < b < |s| ==> s[a] < s[b]
  }

  /** `!previousTick` holds for `null`, `undefined` and `0`. */
  predicate Falsy(v: Option<int>) {
    v == None || v == Some(0)
  }

  /** `moment(t).startOf(major).valueOf()`; `moment(undefined)` is the current time. */
  function MajorStart(moment: Moment, major: Unit, t: Option<int>): int {
    moment.startOf(major, if t.Some? then t.value else moment.now)
  }

  /**
   * Every tick is the timeline value at its index, or (with a major unit)
   * the start of that value's major unit.
   */
  ghost predicate DrawnFromTimeline(timeline: seq<Option<int>>, major: Option<Unit>, moment: Moment, s: TickState) {
    |s.ticks| == |s.indexes| &&
    forall j :: 0 <= j < |s.ticks| ==>
      0 <= s.indexes[j] < |timeline| &&
      (s.ticks[j] == timeline[s.indexes[j]] ||
       (major.Some? && s.ticks[j] == Some(MajorStart(moment, major.value, timeline[s.indexes[j]]))))
  }

  /** Indexes into a timeline of `k` points, each above its predecessor. */
  ghost predicate AscendingBelow(indexes: seq<int>, k: int) {
    (forall j :: 0 < j < |indexes| ==> Gap(indexes, j) > 0) &&
    (|indexes| > 0 ==> 0 <= indexes[0] && indexes[|indexes| - 1] < k)
  }

  /** The distance, in timeline points, from tick `j - 1` to tick `j`. */
  function Gap(indexes: seq<int>, j: int): int
    requires 0 < j < |indexes|
  {
    indexes[j] - indexes[j - 1]
  }

  lemma {:induction false} AscendingBelowIsStrict(indexes: seq<int>, k: int)
    requires AscendingBelow(indexes, k)
    ensures StrictlyIncreasing(indexes) && forall j :: 0 <= j < |indexes| ==> 0 <= indexes[j] < k
  {
    if |indexes| > 1 {
      var init := indexes[..|indexes| - 1];
      assert forall j :: 0 < j < |init| ==> Gap(init, j) == Gap(indexes, j);
      assert Gap(indexes, |indexes| - 1) > 0;
      AscendingBelowIsStrict(init, indexes[|indexes| - 1]);
    }
  }

  /**
   * What one loop iteration needs of the state after the first `k` points:
   * the arrays are paired, there is a tick as soon as one point was seen,
   * and the last three indexes ascend from at least 0 to below `k`.
   */
  predicate Consistent(k: nat, s: TickState) {
    var n := |s.indexes|;
    |s.ticks| == n && (k > 0 ==> n > 0) &&
    (n > 0 ==> 0 <= s.indexes[n - 1] < k) &&
    (n > 1 ==> 0 <= s.indexes[n - 2] < s.indexes[n - 1]) &&
    (n > 2 ==> 0 <= s.indexes[n - 3] < s.indexes[n - 2])
  }

  /** The re-centred index of the collapse step: halfway from `prior` to `index`, rounded with `Math.round`. */
  function Midpoint(prior: int, index: int): (mid: int)
    requires prior + 2 <= index
    ensures prior < mid < index
  {
    HalfRound(index - prior);
    MathRound((index - prior) as real / 2.0) + prior
  }

  /** One iteration of the `buildTicks` loop, for timeline point `i`. */
  function Step(timeline: seq<Option<int>>, skipCount: real, major: Option<Unit>, moment: Moment,
                s: TickState, i: nat): (r: TickState)
    requires i < |timeline| && Consistent(i, s)
    ensures Consistent(i + 1, r)
    ensures i == |timeline| - 1 ==> r.indexes[|r.indexes| - 1] == i
  {
    var tick := timeline[i];
    var n := |s.indexes|;
    var lastShown := if n > 0 then s.indexes[n - 1] else 0;  // `null` counts as 0
    var gap := (i - lastShown) as real;
    if i == 0 || Falsy(timeline[i - 1]) then
      var shown := if major.Some? then Some(MajorStart(moment, major.value, tick)) else tick;
      TickState(s.ticks + [shown], s.indexes + [i])
    else if major.Some? && MajorStart(moment, major.value, tick) != MajorStart(moment, major.value, timeline[i - 1]) then
      var start := Some(MajorStart(moment, major.value, tick));
      if gap < skipCount && n > 1 then
        var ticks := s.ticks[n - 1 := start];
        var indexes := s.indexes[n - 1 := i];
        if n > 2 then
          var mid := Midpoint(indexes[n - 3], i);
          TickState(ticks[n - 2 := timeline[mid]], indexes[n - 2 := mid])
        else
          TickState(ticks, indexes)
      else
        TickState(s.ticks + [start], s.indexes + [i])
    else if gap > skipCount then
      TickState(s.ticks + [tick], s.indexes + [i])
    else if i == |timeline| - 1 then
      if gap < skipCount then
        TickState(s.ticks[n - 1 := tick], s.indexes[n - 1 := i])
      else
        TickState(s.ticks + [tick], s.indexes + [i])
    else
      s
  }

  /** The arrays after the loop has visited the first `k` timeline points. */
  function Decimate(timeline: seq<Option<int>>, skipCount: real, major: Option<Unit>, moment: Moment, k: nat): (s: TickState)
    requires k <= |timeline|
    ensures Consistent(k, s)
    ensures k == |timeline| > 0 ==> s.indexes[|s.indexes| - 1] == k - 1
  {
    if k == 0 then TickState([], [])
    else Step(timeline, skipCount, major, moment, Decimate(timeline, skipCount, major, moment, k - 1), k - 1)
  }

  /** One iteration keeps every index ascending and inside the points seen so far. */
  lemma AscendingStep(timeline: seq<Option<int>>, skipCount: real, major: Option<Unit>, moment: Moment, s: TickState, i: nat)
    requires i < |timeline| && Consistent(i, s) && AscendingBelow(s.indexes, i)
    ensures AscendingBelow(Step(timeline, skipCount, major, moment, s, i).indexes, i + 1)
  {
    var r := Step(timeline, skipCount, major, moment, s, i).indexes;
    var n := |s.indexes|;
    if r == s.indexes + [i] {
      assert forall j :: 0 < j < n ==> Gap(r, j) == Gap(s.indexes, j);
      assert n > 0 ==> Gap(r, n) > 0;
    } else if r != s.indexes {
      assert forall j :: 0 < j < n - 2 ==> Gap(r, j) == Gap(s.indexes, j);
    }
  }

  /** `tickIndexes` strictly ascends and stays inside the timeline: the midpoint rewrite never breaks the order. */
  lemma {:induction false} IndexesAscend(timeline: seq<Option<int>>, skipCount: real, major: Option<Unit>, moment: Moment, k: nat)
    requires k <= |timeline|
    ensures AscendingBelow(Decimate(timeline, skipCount, major, moment, k).indexes, k)
  {
    if k > 0 {
      IndexesAscend(timeline, skipCount, major, moment, k - 1);
      AscendingStep(timeline, skipCount, major, moment, Decimate(timeline, skipCount, major, moment, k - 1), k - 1);
    }
  }

  /** A value drawn from timeline point `i`: the point itself or, with a major unit, its unit start. */
  ghost predicate DrawnValue(timeline: seq<Option<int>>, major: Option<Unit>, moment: Moment, v: Option<int>, i: int)
    requires 0 <= i < |timeline|
  {
    v == timeline[i] || (major.Some? && v == Some(MajorStart(moment, major.value, timeline[i])))
  }

  lemma DrawnPush(timeline: seq<Option<int>>, major: Option<Unit>, moment: Moment, s: TickState, v: Option<int>, i: int)
    requires DrawnFromTimeline(timeline, major, moment, s) && 0 <= i < |timeline| && DrawnValue(timeline, major, moment, v, i)
    ensures DrawnFromTimeline(timeline, major, moment, TickState(s.ticks + [v], s.indexes + [i]))
  {
  }

  lemma DrawnReplace(timeline: seq<Option<int>>, major: Option<Unit>, moment: Moment, s: TickState, p: int, v: Option<int>, i: int)
    requires DrawnFromTimeline(timeline, major, moment, s) && 0 <= p < |s.ticks|
    requires 0 <= i < |timeline| && DrawnValue(timeline, major, moment, v, i)
    ensures DrawnFromTimeline(timeline, major, moment, TickState(s.ticks[p := v], s.indexes[p := i]))
  {
  }

  /** One iteration only ever stores a timeline value or its major-unit start. */
  lemma DrawnStep(timeline: seq<Option<int>>, skipCount: real, major: Option<Unit>, moment: Moment, s: TickState, i: nat)
    requires i < |timeline| && Consistent(i, s) && DrawnFromTimeline(timeline, major, moment, s)
    ensures DrawnFromTimeline(timeline, major, moment, Step(timeline, skipCount, major, moment, s, i))
  {
    var tick := timeline[i];
    var n := |s.indexes|;
    var lastShown := if n > 0 then s.indexes[n - 1] else 0;
    var gap := (i - lastShown) as real;
    if i == 0 || Falsy(timeline[i - 1]) {
      var shown := if major.Some? then Some(MajorStart(moment, major.value, tick)) else tick;
      DrawnPush(timeline, major, moment, s, shown, i);
    } else if major.Some? && MajorStart(moment, major.value, tick) != MajorStart(moment, major.value, timeline[i - 1]) {
      var start := Some(MajorStart(moment, major.value, tick));
      if gap < skipCount && n > 1 {
        var t := TickState(s.ticks[n - 1 := start], s.indexes[n - 1 := i]);
        DrawnReplace(timeline, major, moment, s, n - 1, start, i);
        if n > 2 {
          var mid := Midpoint(t.indexes[n - 3], i);
          DrawnReplace(timeline, major, moment, t, n - 2, timeline[mid], mid);
        }
      } else {
        DrawnPush(timeline, major, moment, s, start, i);
      }
    } else if gap > skipCount {
      DrawnPush(timeline, major, moment, s, tick, i);
    } else if i == |timeline| - 1 {
      if gap < skipCount {
        DrawnReplace(timeline, major, moment, s, n - 1, tick, i);
      } else {
        DrawnPush(timeline, major, moment, s, tick, i);
      }
    }
  }

  lemma {:induction false} TicksFromTimeline(timeline: seq<Option<int>>, skipCount: real, major: Option<Unit>, moment: Moment, k: nat)
    requires k <= |timeline|
    ensures DrawnFromTimeline(timeline, major, moment, Decimate(timeline, skipCount, major, moment, k))
  {
    if k > 0 {
      var s := Decimate(timeline, skipCount, major, moment, k - 1);
      TicksFromTimeline(timeline, skipCount, major, moment, k - 1);
      DrawnStep(timeline, skipCount, major, moment, s, k - 1);
      assert Decimate(timeline, skipCount, major, moment, k) == Step(timeline, skipCount, major, moment, s, k - 1);
    }
  }

  /**
   * The callback `buildTicks` hands to `helpers.each` for timeline point
   * `index`: it pushes onto, or overwrites the last or second-to-last cells
   * of, the arrays it shares with the loop.
   */
  method VisitTimestamp(allTimestamps: seq<Option<int>>, skipCount: real, majorUnit: Option<Unit>, moment: Moment,
                        ticks0: seq<Option<int>>, tickIndexes0: seq<int>, index: nat)
    returns (ticks: seq<Option<int>>, tickIndexes: seq<int>)
    requires index < |allTimestamps| && Consistent(index, TickState(ticks0, tickIndexes0))
    ensures TickState(ticks, tickIndexes) == Step(allTimestamps, skipCount, majorUnit, moment, TickState(ticks0, tickIndexes0), index)
  {
    ghost var after := Step(allTimestamps, skipCount, majorUnit, moment, TickState(ticks0, tickIndexes0), index);
    ticks, tickIndexes := ticks0, tickIndexes0;
    var tick := allTimestamps[index];
    var lastDisplayedTickIndex := if |tickIndexes| > 0 then tickIndexes[|tickIndexes| - 1] else 0;  // `null` counts as 0
    var gap := (index - lastDisplayedTickIndex) as real;
    if index == 0 || Falsy(allTimestamps[index - 1]) {
      if majorUnit.Some? {
        ticks := ticks + [Some(MajorStart(moment, majorUnit.value, tick))];
      } else {
        ticks := ticks + [tick];
      }
      tickIndexes := tickIndexes + [index];
      assert TickState(ticks, tickIndexes) == after;
    } else if majorUnit.Some? &&
              MajorStart(moment, majorUnit.value, tick) != MajorStart(moment, majorUnit.value, allTimestamps[index - 1]) {
      if gap < skipCount && |ticks| > 1 {
        ticks := ticks[|ticks| - 1 := Some(MajorStart(moment, majorUnit.value, tick))];
        tickIndexes := tickIndexes[|tickIndexes| - 1 := index];
        if |ticks| > 2 {
          var newPrevTickIndex := Midpoint(tickIndexes[|ticks| - 3], index);
          ticks := ticks[|ticks| - 2 := allTimestamps[newPrevTickIndex]];
          tickIndexes := tickIndexes[|ticks| - 2 := newPrevTickIndex];
        }
        assert TickState(ticks, tickIndexes) == after;
      } else {
        ticks := ticks + [Some(MajorStart(moment, majorUnit.value, tick))];
        tickIndexes := tickIndexes + [index];
        assert TickState(ticks, tickIndexes) == after;
      }
    } else if gap > skipCount {
      ticks := ticks + [tick];
      tickIndexes := tickIndexes + [index];
      assert TickState(ticks, tickIndexes) == after;
    } else if index == |allTimestamps| - 1 {
      if gap < skipCount {
        ticks := ticks[|ticks| - 1 := tick];
        tickIndexes := tickIndexes[|tickIndexes| - 1 := index];
      } else {
        ticks := ticks + [tick];
        tickIndexes := tickIndexes + [index];
      }
      assert TickState(ticks, tickIndexes) == after;
    }
  }

  /**
   * After the whole timeline: the arrays are paired, the indexes strictly
   * ascend inside the timeline, there is a tick exactly when there is a
   * point, the final point is always the last tick, and a lone point is
   * the only tick.
   */
  lemma DecimateShape(timeline: seq<Option<int>>, skipCount: real, major: Option<Unit>, moment: Moment)
    ensures var s := Decimate(timeline, skipCount, major, moment, |timeline|);
      |s.ticks| == |s.indexes| && StrictlyIncreasing(s.indexes) &&
      (forall j :: 0 <= j < |s.indexes| ==> 0 <= s.indexes[j] < |timeline|) &&
      (|s.ticks| == 0 <==> |timeline| == 0) &&
      (|timeline| > 0 ==> s.indexes[|s.indexes| - 1] == |timeline| - 1) &&
      (|timeline| == 1 ==> s.indexes == [0])
  {
    var s := Decimate(timeline, skipCount, major, moment, |timeline|);
    IndexesAscend(timeline, skipCount, major, moment, |timeline|);
    AscendingBelowIsStrict(s.indexes, |timeline|);
    if |timeline| == 0 {
      assert s == TickState([], []);
    }
  }

  /** The `buildTicks` loop: every timeline point is visited once, in order. */
  method SelectTicks(allTimestamps: seq<Option<int>>, skipCount: real, majorUnit: Option<Unit>, moment: Moment)
    returns (ticks: seq<Option<int>>, tickIndexes: seq<int>)
    ensures TickState(ticks, tickIndexes) == Decimate(allTimestamps, skipCount, majorUnit, moment, |allTimestamps|)
    ensures |ticks| == |tickIndexes| && StrictlyIncreasing(tickIndexes)
    ensures forall j :: 0 <= j < |tickIndexes| ==> 0 <= tickIndexes[j] < |allTimestamps|
    ensures |ticks| == 0 <==> |allTimestamps| == 0
    ensures |allTimestamps| > 0 ==> tickIndexes[|tickIndexes| - 1] == |allTimestamps| - 1
    ensures |allTimestamps| == 1 ==> tickIndexes == [0]
  {
    ticks, tickIndexes := [], [];
    var index := 0;
    while index < |allTimestamps|
      invariant index <= |allTimestamps|
      invariant TickState(ticks, tickIndexes) == Decimate(allTimestamps, skipCount, majorUnit, moment, index)
    {
      ticks, tickIndexes := VisitTimestamp(allTimestamps, skipCount, majorUnit, moment, ticks, tickIndexes, index);
      index := index + 1;
    }
    DecimateShape(allTimestamps, skipCount, majorUnit, moment);
  }

  /** Below capacity (`skipCount < 1`), every timeline point becomes a tick. */
  lemma {:induction false} EveryPointUnderCapacity(timeline: seq<Option<int>>, skipCount: real, major: Option<Unit>,
                                                   moment: Moment, k: nat)
    requires skipCount < 1.0 && k <= |timeline|
    ensures Decimate(timeline, skipCount, major, moment, k).indexes == seq(k, j => j)
  {
    if k > 0 {
      EveryPointUnderCapacity(timeline, skipCount, major, moment, k - 1);
      var s := Decimate(timeline, skipCount, major, moment, k - 1);
      assert k > 1 ==> s.indexes[|s.indexes| - 1] == k - 2;
      assert Decimate(timeline, skipCount, major, moment, k).indexes == s.indexes + [k - 1];
    }
  }

  /** Consecutive ticks `j - 1` and `j`, for every `j` in `(0, upTo)`, lie more than `skipCount` apart. */
  ghost predicate SpacedBelow(indexes: seq<int>, skipCount: real, upTo: int) {
    forall j :: 0 < j < upTo && j < |indexes| ==> Gap(indexes, j) as real > skipCount
  }

  /** No timeline point but the last is `undefined` or 0, so only the first point takes the first-point branch. */
  ghost predicate NoFalsyBeforeLast(timeline: seq<Option<int>>) {
    forall j :: 0 <= j < |timeline| - 1 ==> !Falsy(timeline[j])
  }

  /**
   * Without a major unit, every tick except the final one lies more than
   * `skipCount` timeline points after its predecessor (the final tick may be
   * pulled onto the last point).
   */
  lemma {:induction false} SpacedWithoutMajorUnit(timeline: seq<Option<int>>, skipCount: real, moment: Moment, k: nat)
    requires k <= |timeline| && NoFalsyBeforeLast(timeline)
    ensures var idx := Decimate(timeline, skipCount, None, moment, k).indexes;
      SpacedBelow(idx, skipCount, |idx| - 1)
    ensures var idx := Decimate(timeline, skipCount, None, moment, k).indexes;
      k < |timeline| ==> SpacedBelow(idx, skipCount, |idx|)
  {
    if k > 0 {
      SpacedWithoutMajorUnit(timeline, skipCount, moment, k - 1);
      var s := Decimate(timeline, skipCount, None, moment, k - 1);
      SpacedStep(timeline, skipCount, moment, s, k - 1);
    }
  }

  /** One step of `SpacedWithoutMajorUnit`: a point is pushed only past `skipCount`, and only the final step overwrites. */
  lemma SpacedStep(timeline: seq<Option<int>>, skipCount: real, moment: Moment, s: TickState, i: nat)
    requires i < |timeline| && Consistent(i, s) && NoFalsyBeforeLast(timeline)
    requires SpacedBelow(s.indexes, skipCount, |s.indexes|)
    ensures var idx := Step(timeline, skipCount, None, moment, s, i).indexes;
      SpacedBelow(idx, skipCount, |idx| - 1) && (i < |timeline| - 1 ==> SpacedBelow(idx, skipCount, |idx|))
  {
    var r := Step(timeline, skipCount, None, moment, s, i);
    var n := |s.indexes|;
    if i > 0 {
      assert !Falsy(timeline[i - 1]);
      var gap := (i - s.indexes[n - 1]) as real;
      if gap > skipCount {
        assert r.indexes == s.indexes + [i];
        assert forall j :: 0 < j < n ==> Gap(r.indexes, j) == Gap(s.indexes, j);
        assert Gap(r.indexes, n) as real == gap;
      } else if i == |timeline| - 1 {
        if gap < skipCount {
          assert r.indexes == s.indexes[n - 1 := i];
          assert forall j :: 0 < j < n - 1 ==> Gap(r.indexes, j) == Gap(s.indexes, j);
        } else {
          assert r.indexes == s.indexes + [i];
          assert forall j :: 0 < j < n ==> Gap(r.indexes, j) == Gap(s.indexes, j);
        }
      } else {
        assert r == s;
      }
    }
  }

  /**
   * Timeline point `p` is shown only because it lies past `skipCount`: it is
   * not the first point, does not follow a falsy point, starts no new major
   * unit and is not the final point.
   */
  ghost predicate OrdinaryPoint(timeline: seq<Option<int>>, major: Option<Unit>, moment: Moment, p: int) {
    0 < p < |timeline| - 1 && !Falsy(timeline[p - 1]) &&
    (major.None? || MajorStart(moment, major.value, timeline[p]) == MajorStart(moment, major.value, timeline[p - 1]))
  }

  /** Every tick at an ordinary point lies more than one timeline point after its predecessor. */
  ghost predicate OrdinarySkip(timeline: seq<Option<int>>, major: Option<Unit>, moment: Moment, indexes: seq<int>) {
    forall j :: 0 < j < |indexes| && OrdinaryPoint(timeline, major, moment, indexes[j]) ==> Gap(indexes, j) > 1
  }

  /**
   * With `skipCount == 1` and any major unit, a tick shown at an ordinary
   * point skips at least one point: the points one apart are left out.
   */
  lemma {:induction false} OrdinaryTicksSkipAPoint(timeline: seq<Option<int>>, major: Option<Unit>, moment: Moment, k: nat)
    requires k <= |timeline|
    ensures OrdinarySkip(timeline, major, moment, Decimate(timeline, 1.0, major, moment, k).indexes)
  {
    if k > 0 {
      OrdinaryTicksSkipAPoint(timeline, major, moment, k - 1);
      OrdinaryDecimate(timeline, major, moment, k);
    }
  }

  /** `OrdinaryStep` applied to the state after `k - 1` points. */
  lemma OrdinaryDecimate(timeline: seq<Option<int>>, major: Option<Unit>, moment: Moment, k: nat)
    requires 0 < k <= |timeline|
    requires OrdinarySkip(timeline, major, moment, Decimate(timeline, 1.0, major, moment, k - 1).indexes)
    ensures OrdinarySkip(timeline, major, moment, Decimate(timeline, 1.0, major, moment, k).indexes)
  {
    var s := Decimate(timeline, 1.0, major, moment, k - 1);
    OrdinaryStep(timeline, major, moment, s, k - 1);
    assert Decimate(timeline, 1.0, major, moment, k) == Step(timeline, 1.0, major, moment, s, k - 1);
  }

  /** Pushing a point that is not ordinary, or lies more than one point on, keeps `OrdinarySkip`. */
  lemma OrdinaryPush(timeline: seq<Option<int>>, major: Option<Unit>, moment: Moment, indexes: seq<int>, i: int)
    requires OrdinarySkip(timeline, major, moment, indexes)
    requires |indexes| > 0 && OrdinaryPoint(timeline, major, moment, i) ==> i - indexes[|indexes| - 1] > 1
    ensures OrdinarySkip(timeline, major, moment, indexes + [i])
  {
    var r := indexes + [i];
    forall j | 0 < j < |r| && OrdinaryPoint(timeline, major, moment, r[j])
      ensures Gap(r, j) > 1
    {
      if j < |indexes| {
        assert r[j] == indexes[j] && r[j - 1] == indexes[j - 1];
      }
    }
  }

  /** One step of `OrdinaryTicksSkipAPoint`: at `skipCount == 1` no step collapses or overwrites a tick. */
  lemma OrdinaryStep(timeline: seq<Option<int>>, major: Option<Unit>, moment: Moment, s: TickState, i: nat)
    requires i < |timeline| && Consistent(i, s)
    requires OrdinarySkip(timeline, major, moment, s.indexes)
    ensures OrdinarySkip(timeline, major, moment, Step(timeline, 1.0, major, moment, s, i).indexes)
  {
    var r := Step(timeline, 1.0, major, moment, s, i);
    var n := |s.indexes|;
    if i == 0 || Falsy(timeline[i - 1]) {
      OrdinaryPush(timeline, major, moment, s.indexes, i);
      return;
    }
    var gap := (i - s.indexes[n - 1]) as real;
    assert gap >= 1.0;
    if major.Some? && MajorStart(moment, major.value, timeline[i]) != MajorStart(moment, major.value, timeline[i - 1]) {
      assert r.indexes == s.indexes + [i];
      OrdinaryPush(timeline, major, moment, s.indexes, i);
    } else if gap > 1.0 {
      assert r.indexes == s.indexes + [i];
      OrdinaryPush(timeline, major, moment, s.indexes, i);
    } else if i == |timeline| - 1 {
      assert r.indexes == s.indexes + [i];
      OrdinaryPush(timeline, major, moment, s.indexes, i);
    } else {
      assert r == s;
    }
  }

  /** `m` steps of `n / maxTicks` stay below `n` only when `m < maxTicks`. */
  lemma CapacityArithmetic(m: int, n: int, maxTicks: int)
    requires maxTicks > 0 && n > 0
    requires m as real * (n as real / maxTicks as real) < n as real
    ensures m < maxTicks
  {
    var q := n as real / maxTicks as real;
    assert q * maxTicks as real == n as real;
    assert (m as real * q) * maxTicks as real < n as real * maxTicks as real;
    assert m as real * n as real < maxTicks as real * n as real;
  }

  /**
   * Once there are `m >= 2` ticks, the last one lies at least
   * `1 + (m - 2) * skipCount` points into the timeline: the second tick is
   * pushed past point 0, every later push lands at least `skipCount` after
   * the last tick, and a collapse or final overwrite only moves the last
   * index right without adding a tick.
   */
  ghost predicate LastIndexReach(indexes: seq<int>, skipCount: real) {
    |indexes| >= 2 ==> indexes[|indexes| - 1] as real >= 1.0 + (|indexes| - 2) as real * skipCount
  }

  /** Pushing an index at least `skipCount` after the last (any index after the first tick) keeps the reach. */
  lemma ReachPush(indexes: seq<int>, i: int, skipCount: real)
    requires LastIndexReach(indexes, skipCount) && |indexes| > 0 && 0 <= indexes[|indexes| - 1] < i
    requires |indexes| >= 2 ==> (i - indexes[|indexes| - 1]) as real >= skipCount
    ensures LastIndexReach(indexes + [i], skipCount)
  {
    var m := |indexes|;
    assert (m - 1) as real * skipCount == (m - 2) as real * skipCount + skipCount;
  }

  /** Rewriting indexes without adding one, and without moving the last one left, keeps the reach. */
  lemma ReachMoveLast(indexes: seq<int>, moved: seq<int>, skipCount: real)
    requires LastIndexReach(indexes, skipCount) && |moved| == |indexes| > 0
    requires indexes[|indexes| - 1] <= moved[|moved| - 1]
    ensures LastIndexReach(moved, skipCount)
  {
  }

  lemma ReachStep(timeline: seq<Option<int>>, skipCount: real, major: Option<Unit>, moment: Moment, s: TickState, i: nat)
    requires i < |timeline| && Consistent(i, s) && NoFalsyBeforeLast(timeline)
    requires LastIndexReach(s.indexes, skipCount)
    ensures LastIndexReach(Step(timeline, skipCount, major, moment, s, i).indexes, skipCount)
  {
    var n := |s.indexes|;
    if i == 0 {
      return;
    }
    assert !Falsy(timeline[i - 1]);
    var gap := (i - s.indexes[n - 1]) as real;
    var tick := timeline[i];
    if major.Some? && MajorStart(moment, major.value, tick) != MajorStart(moment, major.value, timeline[i - 1]) {
      if gap < skipCount && n > 1 {
        var indexes := s.indexes[n - 1 := i];
        ReachMoveLast(s.indexes, indexes, skipCount);
        if n > 2 {
          var mid := Midpoint(indexes[n - 3], i);
          ReachMoveLast(indexes, indexes[n - 2 := mid], skipCount);
        }
      } else {
        ReachPush(s.indexes, i, skipCount);
      }
    } else if gap > skipCount {
      ReachPush(s.indexes, i, skipCount);
    } else if i == |timeline| - 1 {
      if gap < skipCount {
        ReachMoveLast(s.indexes, s.indexes[n - 1 := i], skipCount);
      } else {
        ReachPush(s.indexes, i, skipCount);
      }
    }
  }

  lemma {:induction false} ReachDecimate(timeline: seq<Option<int>>, skipCount: real, major: Option<Unit>, moment: Moment, k: nat)
    requires k <= |timeline| && NoFalsyBeforeLast(timeline)
    ensures LastIndexReach(Decimate(timeline, skipCount, major, moment, k).indexes, skipCount)
  {
    if k > 0 {
      var s := Decimate(timeline, skipCount, major, moment, k - 1);
      ReachDecimate(timeline, skipCount, major, moment, k - 1);
      ReachStep(timeline, skipCount, major, moment, s, k - 1);
      assert Decimate(timeline, skipCount, major, moment, k) == Step(timeline, skipCount, major, moment, s, k - 1);
    }
  }

  /** Indexes below `n` whose last one keeps the reach for `skipCount = n / maxTicks` number at most `maxTicks + 1`. */
  lemma ReachWithinCapacity(indexes: seq<int>, n: int, maxTicks: int, skipCount: real)
    requires maxTicks > 0 && skipCount == n as real / maxTicks as real
    requires LastIndexReach(indexes, skipCount)
    requires |indexes| > 0 ==> 0 <= indexes[|indexes| - 1] < n
    ensures |indexes| <= maxTicks + 1
  {
    if |indexes| >= 2 {
      CapacityArithmetic(|indexes| - 2, n, maxTicks);
    }
  }

  /**
   * With `skipCount = n / maxTicks` as `buildTicks` computes it, at most
   * `maxTicks + 1` ticks are produced, whatever the major unit.
   */
  lemma TickCountWithinCapacity(timeline: seq<Option<int>>, maxTicks: int, major: Option<Unit>, moment: Moment)
    requires maxTicks > 0 && NoFalsyBeforeLast(timeline)
    ensures |Decimate(timeline, |timeline| as real / maxTicks as real, major, moment, |timeline|).ticks| <= maxTicks + 1
  {
    var n := |timeline|;
    var skipCount := n as real / maxTicks as real;
    var s := Decimate(timeline, skipCount, major, moment, n);
    ReachDecimate(timeline, skipCount, major, moment, n);
    ReachWithinCapacity(s.indexes, n, maxTicks, skipCount);
  }

  /** Every timeline point holds a time, and the times strictly ascend. */
  ghost predicate DefinedAscending(timeline: seq<Option<int>>) {
    (forall j :: 0 <= j < |timeline| ==> timeline[j].Some?) &&
    (forall a, b :: 0 <= a < b < |timeline| ==> timeline[a].value < timeline[b].value)
  }

  /**
   * Every point holds a time, the times strictly ascend and none but the
   * last is 0, and `startOf` behaves as a calendar unit start.
   */
  ghost predicate OrderedInput(timeline: seq<Option<int>>, moment: Moment) {
    ValidStartOf(moment.startOf) && DefinedAscending(timeline) &&
    forall j :: 0 <= j < |timeline| - 1 ==> timeline[j] != Some(0)
  }

  /** Tick `j` holds a time strictly after tick `j - 1`'s. */
  ghost predicate LaterThanPrevious(ticks: seq<Option<int>>, j: int)
    requires 0 < j < |ticks|
  {
    ticks[j - 1].Some? && ticks[j].Some? && ticks[j - 1].value < ticks[j].value
  }

  /** Tick `j` holds a time no later than the timeline point it stands for. */
  ghost predicate NotAfterItsPoint(timeline: seq<Option<int>>, s: TickState, j: int)
    requires 0 <= j < |s.ticks| == |s.indexes|
  {
    0 <= s.indexes[j] < |timeline| && timeline[s.indexes[j]].Some? && s.ticks[j].Some? &&
    s.ticks[j].value <= timeline[s.indexes[j]].value
  }

  /** Tick times strictly ascend, each at or before its timeline point. */
  ghost predicate TimesAscend(timeline: seq<Option<int>>, s: TickState) {
    |s.ticks| == |s.indexes| &&
    (forall j :: 0 <= j < |s.ticks| ==> NotAfterItsPoint(timeline, s, j)) &&
    (forall j :: 0 < j < |s.ticks| ==> LaterThanPrevious(s.ticks, j))
  }

  /** Pushing a time later than the last tick, at or before point `i`, keeps the order. */
  lemma TimesPush(timeline: seq<Option<int>>, s: TickState, v: int, i: int)
    requires TimesAscend(timeline, s) && 0 <= i < |timeline| && timeline[i].Some? && v <= timeline[i].value
    requires |s.ticks| > 0 ==> s.ticks[|s.ticks| - 1].Some? && s.ticks[|s.ticks| - 1].value < v
    ensures TimesAscend(timeline, TickState(s.ticks + [Some(v)], s.indexes + [i]))
  {
    var r := TickState(s.ticks + [Some(v)], s.indexes + [i]);
    forall j | 0 <= j < |r.ticks| ensures NotAfterItsPoint(timeline, r, j) {
      if j < |s.ticks| { assert NotAfterItsPoint(timeline, s, j); }
    }
    forall j | 0 < j < |r.ticks| ensures LaterThanPrevious(r.ticks, j) {
      if j < |s.ticks| { assert LaterThanPrevious(s.ticks, j); }
    }
  }

  /** Overwriting the last tick with a time later than the one before it, at or before point `i`, keeps the order. */
  lemma TimesReplaceLast(timeline: seq<Option<int>>, s: TickState, v: int, i: int)
    requires TimesAscend(timeline, s) && |s.ticks| > 0
    requires 0 <= i < |timeline| && timeline[i].Some? && v <= timeline[i].value
    requires |s.ticks| > 1 ==> s.ticks[|s.ticks| - 2].Some? && s.ticks[|s.ticks| - 2].value < v
    ensures TimesAscend(timeline, TickState(s.ticks[|s.ticks| - 1 := Some(v)], s.indexes[|s.indexes| - 1 := i]))
  {
    var n := |s.ticks|;
    var r := TickState(s.ticks[n - 1 := Some(v)], s.indexes[n - 1 := i]);
    forall j | 0 <= j < n ensures NotAfterItsPoint(timeline, r, j) {
      if j < n - 1 { assert NotAfterItsPoint(timeline, s, j); }
    }
    forall j | 0 < j < n ensures LaterThanPrevious(r.ticks, j) {
      if j < n - 1 { assert LaterThanPrevious(s.ticks, j); }
    }
  }

  /** Re-centring the second-to-last tick on point `i`, strictly between its neighbours' times, keeps the order. */
  lemma TimesReplaceSecondLast(timeline: seq<Option<int>>, s: TickState, i: int)
    requires TimesAscend(timeline, s) && |s.ticks| > 1
    requires 0 <= i < |timeline| && timeline[i].Some?
    requires s.ticks[|s.ticks| - 1].Some? && timeline[i].value < s.ticks[|s.ticks| - 1].value
    requires |s.ticks| > 2 ==> s.ticks[|s.ticks| - 3].Some? && s.ticks[|s.ticks| - 3].value < timeline[i].value
    ensures TimesAscend(timeline, TickState(s.ticks[|s.ticks| - 2 := timeline[i]], s.indexes[|s.indexes| - 2 := i]))
  {
    var n := |s.ticks|;
    var r := TickState(s.ticks[n - 2 := timeline[i]], s.indexes[n - 2 := i]);
    forall j | 0 <= j < n ensures NotAfterItsPoint(timeline, r, j) {
      if j != n - 2 { assert NotAfterItsPoint(timeline, s, j); }
    }
    forall j | 0 < j < n ensures LaterThanPrevious(r.ticks, j) {
      if j < n - 2 { assert LaterThanPrevious(s.ticks, j); }
    }
  }

  /** One iteration of `TickTimesAscend`. */
  lemma TimesStep(timeline: seq<Option<int>>, skipCount: real, major: Option<Unit>, moment: Moment, s: TickState, i: nat)
    requires OrderedInput(timeline, moment)
    requires i < |timeline| && Consistent(i, s) && TimesAscend(timeline, s)
    ensures TimesAscend(timeline, Step(timeline, skipCount, major, moment, s, i))
  {
    var n := |s.indexes|;
    var t := timeline[i].value;
    if i == 0 {
      if major.Some? {
        TimesPush(timeline, s, moment.startOf(major.value, t), i);
      } else {
        TimesPush(timeline, s, t, i);
      }
      return;
    }
    var p := timeline[i - 1].value;
    assert !Falsy(timeline[i - 1]);
    assert s.ticks[n - 1].value <= p by {
      assert NotAfterItsPoint(timeline, s, n - 1);
    }
    if major.Some? && MajorStart(moment, major.value, timeline[i]) != MajorStart(moment, major.value, timeline[i - 1]) {
      var c := moment.startOf(major.value, t);
      CrossingStartFollows(moment.startOf, major.value, p, t);
      var gap := (i - s.indexes[n - 1]) as real;
      if gap < skipCount && n > 1 {
        assert s.ticks[n - 2].value < c by {
          assert NotAfterItsPoint(timeline, s, n - 2);
        }
        TimesReplaceLast(timeline, s, c, i);
        var s1 := TickState(s.ticks[n - 1 := Some(c)], s.indexes[n - 1 := i]);
        if n > 2 {
          var mid := Midpoint(s.indexes[n - 3], i);
          assert s.ticks[n - 3].value < timeline[mid].value by {
            assert NotAfterItsPoint(timeline, s, n - 3);
          }
          TimesReplaceSecondLast(timeline, s1, mid);
        }
      } else {
        TimesPush(timeline, s, c, i);
      }
    } else {
      var gap := (i - s.indexes[n - 1]) as real;
      if gap > skipCount || (i == |timeline| - 1 && !(gap < skipCount)) {
        TimesPush(timeline, s, t, i);
      } else if i == |timeline| - 1 {
        assert n > 1 ==> s.ticks[n - 2].value < t by {
          if n > 1 { assert NotAfterItsPoint(timeline, s, n - 2); }
        }
        TimesReplaceLast(timeline, s, t, i);
      }
    }
  }

  /** `TimesStep` applied to the state after `k - 1` points. */
  lemma TimesDecimate(timeline: seq<Option<int>>, skipCount: real, major: Option<Unit>, moment: Moment, k: nat)
    requires OrderedInput(timeline, moment) && 0 < k <= |timeline|
    requires TimesAscend(timeline, Decimate(timeline, skipCount, major, moment, k - 1))
    ensures TimesAscend(timeline, Decimate(timeline, skipCount, major, moment, k))
  {
    var s := Decimate(timeline, skipCount, major, moment, k - 1);
    TimesStep(timeline, skipCount, major, moment, s, k - 1);
    assert Decimate(timeline, skipCount, major, moment, k) == Step(timeline, skipCount, major, moment, s, k - 1);
  }

  /**
   * On a timeline of strictly ascending times in which no point but the
   * last is 0, the tick times strictly ascend, each at or before the point
   * it stands for.
   */
  lemma {:induction false} TickTimesAscend(timeline: seq<Option<int>>, skipCount: real, major: Option<Unit>, moment: Moment, k: nat)
    requires OrderedInput(timeline, moment)
    requires k <= |timeline|
    ensures TimesAscend(timeline, Decimate(timeline, skipCount, major, moment, k))
  {
    if k > 0 {
      TickTimesAscend(timeline, skipCount, major, moment, k - 1);
      TimesDecimate(timeline, skipCount, major, moment, k);
    }
  }

  /**
   * A timeline ending in `undefined` (from an unparseable value followed by
   * a valid one in the same array) is not covered by `TickTimesAscend`: the
   * final point is always shown, so the last tick is `undefined`, or with a
   * major unit the start of that unit around the current time, which may
   * come before the ticks it follows.
   */
  lemma TrailingUndefinedTick()
    ensures Decimate([Some(5), Some(9), None], 0.5, None, Moment((u: Unit, t: int) => t, 1), 3).ticks
      == [Some(5), Some(9), None]
    ensures Decimate([Some(5), Some(9), None], 0.5, Some(Day), Moment((u: Unit, t: int) => t, 1), 3).ticks
      == [Some(5), Some(9), Some(1)]
  {
    var timeline := [Some(5), Some(9), None];
    var moment := Moment((u: Unit, t: int) => t, 1);
    var plain := Decimate(timeline, 0.5, None, moment, 2);
    assert plain.ticks == [Some(5), Some(9)] by {
      assert Decimate(timeline, 0.5, None, moment, 1).ticks == [Some(5)];
    }
    var daily := Decimate(timeline, 0.5, Some(Day), moment, 2);
    assert daily.ticks == [Some(5), Some(9)] by {
      assert Decimate(timeline, 0.5, Some(Day), moment, 1).ticks == [Some(5)];
    }
  }

  /**
   * The `!previousTick` test also fires when the previous time is 0: the
   * point after a 0 takes the first-point branch and is pushed, and with a
   * major unit whose start maps both points to 0 the same tick time appears
   * twice.
   */
  lemma ZeroPreviousRestartsTicks()
    ensures var moment := Moment((u: Unit, t: int) => if 0 <= t < 1000 then 0 else t, 0);
      ValidStartOf(moment.startOf) &&
      Decimate([Some(0), Some(500)], 1.0, Some(Second), moment, 2) == TickState([Some(0), Some(0)], [0, 1])
  {
    var moment := Moment((u: Unit, t: int) => if 0 <= t < 1000 then 0 else t, 0);
    var timeline := [Some(0), Some(500)];
    var first := Decimate(timeline, 1.0, Some(Second), moment, 1);
    assert first == TickState([Some(0)], [0]);
    assert Step(timeline, 1.0, Some(Second), moment, first, 1) == TickState([Some(0), Some(0)], [0, 1]);
  }

  /**
   * Without a major unit the same quirk breaks the spacing of
   * `SpacedWithoutMajorUnit`: on the times 0 to 3 with `skipCount` 2, the
   * point after 0 is pushed one point after the first tick.
   */
  lemma ZeroPreviousBreaksSpacing()
    ensures Decimate([Some(0), Some(1), Some(2), Some(3)], 2.0, None, Moment((u: Unit, t: int) => t, 0), 4).indexes
      == [0, 1, 3]
  {
    var timeline := [Some(0), Some(1), Some(2), Some(3)];
    var moment := Moment((u: Unit, t: int) => t, 0);
    assert Decimate(timeline, 2.0, None, moment, 1).indexes == [0];
    assert Decimate(timeline, 2.0, None, moment, 2).indexes == [0, 1];
    assert Decimate(timeline, 2.0, None, moment, 3).indexes == [0, 1];
  }
}
