/**
 * What the scale needs from the date library (moment.js): the time units,
 * `moment(t).startOf(unit).valueOf()` as a function on millisecond
 * timestamps, and the instant that `moment(undefined)` denotes (the current
 * time). The library itself is not part of this model; `ValidStartOf` states
 * the properties of truncation the proofs rely on.
 */
module TimeLib {

  datatype Unit = Millisecond | Second | Minute | Hour | Day | Week | Month | Quarter | Year

  datatype Moment = Moment(startOf: (Unit, int) -> int, now: int)

  /** Truncation to the start of a unit never moves forward, keeps order, and is idempotent. */
  ghost predicate ValidStartOf(startOf: (Unit, int) -> int) {
    (forall u, t :: startOf(u, t) <= t) &&
    (forall u, a, b :: a <= b ==> startOf(u, a) <= startOf(u, b)) &&
    (forall u, t :: startOf(u, startOf(u, t)) == startOf(u, t))
  }

  /**
   * When `t` follows `p` and the two fall in different units, the start of
   * `t`'s unit lies strictly after `p`: a boundary crossing is a real step
   * forward in time.
   */
  lemma CrossingStartFollows(startOf: (Unit, int) -> int, u: Unit, p: int, t: int)
    requires ValidStartOf(startOf)
    requires p <= t && startOf(u, t) != startOf(u, p)
    ensures p < startOf(u, t)
  {
    var s := startOf(u, t);
    assert startOf(u, s) == s;
  }
}
