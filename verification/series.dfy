/**
 * Helpers over one instrument's ordered daily closes: first arg-min and
 * arg-max over a suffix (the pandas `idxmin`/`idxmax` tie-break), the first
 * close reaching a level, the end of a non-decreasing run, and Python's
 * `int()` truncation of a real.
 */
module Series {
  import opened Wrappers

  function Max(a: real, b: real): (m: real)
    ensures m >= a && m >= b
    ensures m == a || m == b
  {
    if b > a then b else a
  }

  /** Python's `int(x)` on a float: truncation toward zero. */
  function Trunc(x: real): (n: int)
    ensures x >= 0.0 ==> n as real <= x < n as real + 1.0
    ensures x < 0.0 ==> n as real - 1.0 < x <= n as real
  {
    if x >= 0.0 then x.Floor else -((-x).Floor)
  }

  /** The first index in [from, |c|) at which the minimum close of that suffix occurs. */
  function ArgMinFrom(c: seq<real>, from: nat): (m: nat)
    requires from < |c|
    ensures from <= m < |c|
    decreases |c| - from
  {
    if from == |c| - 1 then from
    else
      var rest := ArgMinFrom(c, from + 1);
      if c[from] <= c[rest] then from else rest
  }

  /** `ArgMinFrom` lands on a minimum of the suffix, and on its first occurrence. */
  lemma {:induction false} ArgMinSpec(c: seq<real>, from: nat)
    requires from < |c|
    ensures var m := ArgMinFrom(c, from);
      && (forall k :: from <= k < |c| ==> c[m] <= c[k])
      && (forall k :: from <= k < m ==> c[m] < c[k])
    decreases |c| - from
  {
    if from < |c| - 1 {
      ArgMinSpec(c, from + 1);
    }
  }

  /** The first index in [from, |c|) at which the maximum close of that suffix occurs. */
  function ArgMaxFrom(c: seq<real>, from: nat): (m: nat)
    requires from < |c|
    ensures from <= m < |c|
    decreases |c| - from
  {
    if from == |c| - 1 then from
    else
      var rest := ArgMaxFrom(c, from + 1);
      if c[from] >= c[rest] then from else rest
  }

  /** `ArgMaxFrom` lands on a maximum of the suffix, and on its first occurrence. */
  lemma {:induction false} ArgMaxSpec(c: seq<real>, from: nat)
    requires from < |c|
    ensures var m := ArgMaxFrom(c, from);
      && (forall k :: from <= k < |c| ==> c[k] <= c[m])
      && (forall k :: from <= k < m ==> c[k] < c[m])
    decreases |c| - from
  {
    if from < |c| - 1 {
      ArgMaxSpec(c, from + 1);
    }
  }

  /** The first index at or after `from` whose close is at least `level`, if any. */
  function FirstReach(c: seq<real>, level: real, from: nat): (j: Option<nat>)
    ensures j.Some? ==> from <= j.value < |c|
    decreases |c| - from
  {
    if from >= |c| then None
    else if c[from] >= level then Some(from)
    else FirstReach(c, level, from + 1)
  }

  /** `FirstReach` finds the first close at or above the level, and only misses when there is none. */
  lemma {:induction false} FirstReachSpec(c: seq<real>, level: real, from: nat)
    ensures var j := FirstReach(c, level, from);
      && (j.Some? ==> c[j.value] >= level && forall k :: from <= k < j.value ==> c[k] < level)
      && (j.None? ==> forall k :: from <= k < |c| ==> c[k] < level)
    decreases |c| - from
  {
    if from < |c| && c[from] < level {
      FirstReachSpec(c, level, from + 1);
    }
  }

  /**
   * Walks forward from `j` while the next close is not lower: the last index
   * of the non-decreasing run that starts at `j`.
   */
  function RunEnd(c: seq<real>, j: nat): (p: nat)
    requires j < |c|
    ensures j <= p < |c|
    decreases |c| - j
  {
    if j + 1 < |c| && c[j + 1] >= c[j] then RunEnd(c, j + 1) else j
  }

  /**
   * The run ends at the last close or where the next close is lower, and the
   * closes from `j` to its end never decrease.
   */
  lemma {:induction false} RunEndSpec(c: seq<real>, j: nat)
    requires j < |c|
    ensures var p := RunEnd(c, j);
      && (p + 1 == |c| || c[p + 1] < c[p])
      && (forall k1, k2 :: j <= k1 <= k2 <= p ==> c[k1] <= c[k2])
    decreases |c| - j
  {
    if j + 1 < |c| && c[j + 1] >= c[j] {
      RunEndSpec(c, j + 1);
    }
  }

  /** The highest of the first `i` closes. */
  function PrefixMax(c: seq<real>, i: nat): real
    requires 1 <= i <= |c|
  {
    if i == 1 then c[0] else Max(PrefixMax(c, i - 1), c[i - 1])
  }

  /** `PrefixMax` bounds every close before `i` and is one of them, at index `m`. */
  lemma {:induction false} PrefixMaxSpec(c: seq<real>, i: nat) returns (m: nat)
    requires 1 <= i <= |c|
    ensures m < i && PrefixMax(c, i) == c[m]
    ensures forall k :: 0 <= k < i ==> c[k] <= PrefixMax(c, i)
  {
    if i == 1 {
      m := 0;
    } else {
      m := PrefixMaxSpec(c, i - 1);
      if c[i - 1] > PrefixMax(c, i - 1) {
        m := i - 1;
      }
    }
  }
}
