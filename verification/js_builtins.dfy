/**
 * The JavaScript built-ins the time-series scale relies on, with the exact
 * behaviour it depends on: `Array.prototype.indexOf`, storing `a[k] = v`
 * past the end of an array, `Math.round`, and `Array.prototype.sort` with
 * the numeric comparator `(a, b) => a - b`.
 */
module JsBuiltins {
  import opened Wrappers

  predicate NoDuplicates<T(==)>(s: seq<T>) {
    forall i, j :: 0 <= i < j < |s| ==> s[i] != s[j]
  }

  /** `s.indexOf(x)`: the first position holding `x` (strict equality), or -1. */
  function IndexOf<T(==)>(s: seq<T>, x: T): (r: int)
    ensures r == -1 <==> x !in s
    ensures r != -1 ==> 0 <= r < |s| && s[r] == x && x !in s[..r]
  {
    if |s| == 0 then -1
    else if s[0] == x then 0
    else
      var k := IndexOf(s[1..], x);
      if k == -1 then -1
      else
        assert s[..k + 1] == [s[0]] + s[1..][..k];
        k + 1
  }

  /** `x` occurs among the first `i` elements exactly when its first position is below `i`. */
  lemma IndexOfPrefix<T>(s: seq<T>, x: T, i: nat)
    requires i <= |s|
    ensures x in s[..i] <==> 0 <= IndexOf(s, x) < i
  {
    var r := IndexOf(s, x);
    if x in s[..i] {
      var j :| 0 <= j < i && s[..i][j] == x;
      assert s[j] == x;
    }
    if 0 <= r < i {
      assert s[..i][r] == x;
    }
  }

  /** `a[k] = v` on a JavaScript array: overwrite inside it, or grow it to length `k + 1`, the skipped slots left as holes. */
  function SparseStore<T>(a: seq<Option<T>>, k: nat, v: T): (r: seq<Option<T>>)
    ensures |r| == if k < |a| then |a| else k + 1
    ensures r[k] == Some(v)
    ensures forall j :: 0 <= j < |r| && j != k ==> r[j] == if j < |a| then a[j] else None
  {
    if k < |a| then a[k := Some(v)] else a + seq(k - |a|, _ => None) + [Some(v)]
  }

  /** `Math.round`: the nearest integer, halves rounded towards positive infinity. */
  function MathRound(x: real): (r: int)
    ensures x - 0.5 < r as real <= x + 0.5
  {
    (x + 0.5).Floor
  }

  lemma MathRoundMonotone(x: real, y: real)
    requires x <= y
    ensures MathRound(x) <= MathRound(y)
  {
  }

  /** `Math.round(d / 2)` on a whole number `d` is `(d + 1) / 2` in floor division, for every sign of `d`. */
  lemma HalfRound(d: int)
    ensures MathRound(d as real / 2.0) == (d + 1) / 2
  {
    var r := MathRound(d as real / 2.0);
    assert d as real - 1.0 < 2.0 * r as real <= d as real + 1.0;
    assert d - 1 < 2 * r <= d + 1;
  }

  /**
   * The order `sort((a, b) => a - b)` leaves behind: `undefined` entries are
   * moved past every number, numbers ascend.
   */
  predicate SortsBefore(a: Option<int>, b: Option<int>) {
    b.None? || (a.Some? && a.value <= b.value)
  }

  predicate SortedNumeric(s: seq<Option<int>>) {
    forall i, j :: 0 <= i < j < |s| ==> SortsBefore(s[i], s[j])
  }

  function InsertSorted(x: Option<int>, s: seq<Option<int>>): (r: seq<Option<int>>)
    requires SortedNumeric(s)
    ensures SortedNumeric(r) && multiset(r) == multiset(s) + multiset{x}
  {
    if |s| == 0 then [x]
    else if SortsBefore(x, s[0]) then [x] + s
    else
      var rest := InsertSorted(x, s[1..]);
      assert s == [s[0]] + s[1..];
      HeadBeforeInsertion(s, x, rest);
      [s[0]] + rest
  }

  /** The head of a sorted `s` that sorts before `x` also heads `x` inserted into the tail. */
  lemma HeadBeforeInsertion(s: seq<Option<int>>, x: Option<int>, rest: seq<Option<int>>)
    requires |s| > 0 && SortedNumeric(s) && !SortsBefore(x, s[0])
    requires SortedNumeric(rest) && multiset(rest) == multiset(s[1..]) + multiset{x}
    ensures SortedNumeric([s[0]] + rest)
  {
    forall e | e in rest ensures SortsBefore(s[0], e) {
      assert e in multiset(rest);
      if e != x {
        assert e in multiset(s[1..]);
        var k :| 0 <= k < |s[1..]| && s[1..][k] == e;
        assert s[k + 1] == e;
      }
    }
    var r := [s[0]] + rest;
    assert forall j :: 0 < j < |r| ==> r[j] == rest[j - 1];
  }

  /** `s.sort((a, b) => a - b)`: a permutation of `s`, numbers ascending, `undefined` last. */
  function SortNumeric(s: seq<Option<int>>): (r: seq<Option<int>>)
    ensures SortedNumeric(r) && multiset(r) == multiset(s)
  {
    if |s| == 0 then []
    else
      assert s == s[..|s| - 1] + [s[|s| - 1]];
      InsertSorted(s[|s| - 1], SortNumeric(s[..|s| - 1]))
  }

  lemma {:induction false} DistinctCount<T>(s: seq<T>, x: T)
    requires NoDuplicates(s)
    ensures multiset(s)[x] <= 1
  {
    if |s| > 0 {
      assert s == [s[0]] + s[1..];
      DistinctCount(s[1..], x);
      if s[0] == x {
        assert x !in s[1..];
      }
    }
  }

  lemma RepeatedCount<T>(s: seq<T>, i: nat, j: nat)
    requires i < j < |s| && s[i] == s[j]
    ensures multiset(s)[s[i]] >= 2
  {
    assert s == s[..i] + [s[i]] + s[i + 1..j] + [s[j]] + s[j + 1..];
  }

  lemma MultisetKeepsDistinct<T>(a: seq<T>, b: seq<T>)
    requires multiset(a) == multiset(b) && NoDuplicates(a)
    ensures NoDuplicates(b)
  {
    forall i, j | 0 <= i < j < |b| ensures b[i] != b[j] {
      if b[i] == b[j] {
        RepeatedCount(b, i, j);
        DistinctCount(a, b[i]);
      }
    }
  }

  /** Numbers strictly ascending, with at most one `undefined`, in the last place. */
  predicate StrictlySortedNumeric(r: seq<Option<int>>) {
    (forall i, j :: 0 <= i < j < |r| && r[i].Some? && r[j].Some? ==> r[i].value < r[j].value) &&
    (forall i :: 0 <= i < |r| && r[i].None? ==> i == |r| - 1)
  }

  /** A strictly sorted array holds each of its values once, so dropping its head removes exactly that value. */
  lemma StrictlySortedTail(a: seq<Option<int>>, x: Option<int>)
    requires StrictlySortedNumeric(a) && |a| > 0
    ensures x in a[1..] <==> x in a && x != a[0]
  {
    if x in a[1..] {
      var j :| 1 <= j < |a| && a[j] == x;
      assert a[j] == a[1..][j - 1];
    }
    if x in a && x != a[0] {
      var j :| 0 <= j < |a| && a[j] == x;
      assert a[1..][j - 1] == x;
    }
  }

  /**
   * Two strictly sorted arrays with the same values are equal: the numbers
   * ascend in one order only, and `undefined` can only be last.
   */
  lemma {:induction false} StrictlySortedUnique(a: seq<Option<int>>, b: seq<Option<int>>)
    requires StrictlySortedNumeric(a) && StrictlySortedNumeric(b)
    requires forall x :: x in a <==> x in b
    ensures a == b
    decreases |a|
  {
    assert a == [] <==> b == [] by {
      if a != [] {
        assert a[0] in b;
      }
      if b != [] {
        assert b[0] in a;
      }
    }
    if a != [] {
      assert a[0] in a && b[0] in b;
      var k :| 0 <= k < |a| && a[k] == b[0];
      var l :| 0 <= l < |b| && b[l] == a[0];
      if k > 0 && l > 0 {
        // a[0] < a[k] == b[0] < b[l] == a[0] by strict sortedness, as an `undefined` can only come last
        assert false;
      }
      assert a[0] == b[0];
      forall x ensures x in a[1..] <==> x in b[1..] {
        StrictlySortedTail(a, x);
        StrictlySortedTail(b, x);
      }
      StrictlySortedUnique(a[1..], b[1..]);
      assert a == [a[0]] + a[1..] && b == [b[0]] + b[1..];
    }
  }

  /**
   * Sorting a duplicate-free array: its numbers strictly ascend, and at most
   * one `undefined` is left, in the last position.
   */
  lemma SortDistinct(u: seq<Option<int>>)
    requires NoDuplicates(u)
    ensures var r := SortNumeric(u);
      NoDuplicates(r) &&
      (forall x :: x in r <==> x in u) &&
      StrictlySortedNumeric(r)
  {
    var r := SortNumeric(u);
    MultisetKeepsDistinct(u, r);
    forall x ensures x in r <==> x in u {
      assert x in r <==> x in multiset(r);
      assert x in u <==> x in multiset(u);
    }
    forall i, j | 0 <= i < j < |r| && r[i].Some? && r[j].Some? ensures r[i].value < r[j].value {
      assert SortsBefore(r[i], r[j]) && r[i] != r[j];
    }
    forall i | 0 <= i < |r| - 1 ensures r[i].Some? {
      assert SortsBefore(r[i], r[i + 1]);
      assert r[i] != r[i + 1];
    }
  }
}
