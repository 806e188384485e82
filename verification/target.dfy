/**
 * The final projection (`analyze_target`, super_analysis.py:105-139).
 *
 * The scan runs with the default rise threshold, the retest table is built,
 * and its last record decides the projection. A `NextPeak` record is used as
 * it is. Otherwise the target is the current close grown by the recent
 * volatility, with a growth floor, truncated by `int()`, and the period is
 * the truncated mean of all recorded periods. The wall-clock "today" is a
 * parameter: a day number, like the dates of the series.
 */
module Target {
  import opened Wrappers
  import opened Series
  import opened BreakoutPeak
  import opened Retest

  /** The default `rise_threshold` of `find_bt`. */
  const RiseThreshold: real := 0.3
  /** How many trailing closes the volatility looks at. */
  const Window: nat := 60
  /** The growth assumed at least. */
  const MinGrowth: real := 0.1
  /** The volatility used when the lowest recent close is not positive. */
  const DefaultVolatility: real := 0.2
  /** The factor of the correction applied when the target is not above the current close. */
  const Correction: real := 1.1

  /** The projection: target price, expected return in percent, period in days and target day. */
  datatype Projection = Projection(targetPrice: real, expectedReturn: Option<real>, period: int, targetDay: int)

  /** The first index of the last `Window` closes (the whole series when it is shorter). */
  function WindowStart(n: nat): (s: nat)
    ensures s <= n
  {
    if n > Window then n - Window else 0
  }

  /** `(high - low) / low` over the recent closes, or the default when the low is not positive. */
  function Volatility(c: seq<real>): (v: real)
    requires |c| > 0
  {
    var s := WindowStart(|c|);
    var high := c[ArgMaxFrom(c, s)];
    var low := c[ArgMinFrom(c, s)];
    if low > 0.0 then (high - low) / low else DefaultVolatility
  }

  /**
   * The volatility is never negative. With a positive low it is the spread of
   * the recent closes relative to their lowest: the close at `lo` is the low,
   * the close at `hi` exceeds it by `low * v`, and every recent close lies between
   * the two. Otherwise it is the default.
   */
  lemma VolatilitySpan(c: seq<real>) returns (lo: nat, hi: nat)
    requires |c| > 0
    ensures |c| - WindowStart(|c|) == (if |c| < Window then |c| else Window)
    ensures Volatility(c) >= 0.0
    ensures WindowStart(|c|) <= lo < |c| && WindowStart(|c|) <= hi < |c|
    ensures forall k :: WindowStart(|c|) <= k < |c| ==> c[lo] <= c[k] <= c[hi]
    ensures c[lo] > 0.0 ==> Volatility(c) == (c[hi] - c[lo]) / c[lo]
    ensures c[lo] <= 0.0 ==> Volatility(c) == DefaultVolatility
  {
    var s := WindowStart(|c|);
    hi := ArgMaxFrom(c, s);
    lo := ArgMinFrom(c, s);
    ArgMaxSpec(c, s);
    ArgMinSpec(c, s);
    if c[lo] > 0.0 {
      RelativeSpread(c[lo], c[hi], Volatility(c));
    }
  }

  /** The spread of `high` over a positive `low`, relative to `low`, grows `low` back into `high`. */
  lemma RelativeSpread(low: real, high: real, v: real)
    requires 0.0 < low <= high && v == (high - low) / low
    ensures v >= 0.0
    ensures high - low == low * v
  {
  }

  /** `max(0.1, volatility)`. */
  function Growth(v: real): (g: real)
    ensures g >= MinGrowth && g >= v
    ensures g == MinGrowth || g == v
  {
    Max(MinGrowth, v)
  }

  /**
   * `int(current * (1 + growth))`, replaced by `int(current * 1.1)` when it is
   * not above the current close. With a positive close and a growth of at
   * least 10 % the target is at least the floor of 110 % of the close, and
   * from a close of 10 on it is strictly above the close.
   */
  function FallbackPrice(current: real, growth: real): (target: int)
    ensures current > 0.0 && growth >= MinGrowth ==> target >= (current * Correction).Floor
    ensures current >= 10.0 && growth >= MinGrowth ==> target as real > current
  {
    var first := Trunc(current * (1.0 + growth));
    if first as real <= current then Trunc(current * Correction) else first
  }

  /**
   * Below a close of 10 the correction need not lift the target above the
   * close: at 5 with the minimum growth both truncations give 5.
   */
  lemma FallbackTiesBelowTen()
    ensures FallbackPrice(5.0, MinGrowth) == 5
  {
    assert 5.0 * (1.0 + MinGrowth) == 5.5;
    assert 5.0 * Correction == 5.5;
    assert (5.5).Floor == 5;
  }

  function Sum(ps: seq<int>): int
  {
    if |ps| == 0 then 0 else Sum(ps[..|ps| - 1]) + ps[|ps| - 1]
  }

  /** `int(np.mean(periods))`: the mean truncated toward zero. */
  function MeanPeriod(ps: seq<int>): int
    requires |ps| > 0
  {
    Trunc(Sum(ps) as real / |ps| as real)
  }

  /** A sum of values between `lo` and `hi` lies between `|ps| * lo` and `|ps| * hi`. */
  lemma {:induction false} SumBounds(ps: seq<int>, lo: int, hi: int)
    requires forall k :: 0 <= k < |ps| ==> lo <= ps[k] <= hi
    ensures |ps| * lo <= Sum(ps) <= |ps| * hi
  {
    if |ps| > 0 {
      SumBounds(ps[..|ps| - 1], lo, hi);
    }
  }

  /** The truncated mean lies between any lower and upper bound of the values. */
  lemma MeanBounds(ps: seq<int>, lo: int, hi: int)
    requires |ps| > 0
    requires forall k :: 0 <= k < |ps| ==> lo <= ps[k] <= hi
    ensures lo <= MeanPeriod(ps) <= hi
  {
    SumBounds(ps, lo, hi);
    QuotientBounds(Sum(ps), |ps|, lo, hi);
  }

  /** A sum between `n * lo` and `n * hi` has its mean between `lo` and `hi`. */
  lemma QuotientBounds(sum: int, n: nat, lo: int, hi: int)
    requires n > 0 && n * lo <= sum <= n * hi
    ensures lo as real <= sum as real / n as real <= hi as real
  {
    var m := sum as real / n as real;
    assert (n * lo) as real == n as real * lo as real;
    assert (n * hi) as real == n as real * hi as real;
    assert n as real * m == sum as real;
  }

  /** The periods column of the table. */
  function Periods(rows: seq<Record>): (ps: seq<int>)
    ensures |ps| == |rows| && forall k :: 0 <= k < |rows| ==> ps[k] == rows[k].period
  {
    seq(|rows|, k requires 0 <= k < |rows| => rows[k].period)
  }

  /**
   * `(target - current) / current * 100`; a zero close gives no finite value.
   * The return has the sign of the price change over a positive close, and
   * grows the close back into the target.
   */
  function ExpectedReturn(target: real, current: real): (e: Option<real>)
    ensures e.None? <==> current == 0.0
    ensures e.Some? ==> target == current * (1.0 + e.value / 100.0)
    ensures current > 0.0 ==>
      && (e.value > 0.0 <==> target > current)
      && (e.value == 0.0 <==> target == current)
  {
    if current == 0.0 then None else Some((target - current) / current * 100.0)
  }

  /** The projection from a non-empty table and the last close. */
  function Project(c: seq<real>, rows: seq<Record>, today: int): Projection
    requires |c| > 0 && |rows| > 0
  {
    var current := c[|c| - 1];
    var last := rows[|rows| - 1];
    if last.kind == NextPeak then
      Projection(last.targetPrice, ExpectedReturn(last.targetPrice, current), last.period, today + last.period)
    else
      var target := FallbackPrice(current, Growth(Volatility(c))) as real;
      var period := MeanPeriod(Periods(rows));
      Projection(target, ExpectedReturn(target, current), period, today + period)
  }

  /** The retest table `analyze_target` builds from the scan with the default threshold. */
  function Rows(c: seq<real>, days: seq<int>): (res: Result<seq<Record>, Error>)
    requires |days| == |c| && |c| > 0
    ensures res.Success?
  {
    DetectionInSeries(c, RiseThreshold);
    var d := FindBT(c, RiseThreshold).value;
    AnalyzeRetests(c, days, d.breakouts, d.peaks)
  }

  /** `analyze_target(df)`: nothing when no pair was retested, else the projection. */
  function AnalyzeTarget(c: seq<real>, days: seq<int>, today: int): (res: Result<Option<Projection>, Error>)
    requires |days| == |c|
    ensures res.Failure? <==> |c| == 0
    ensures res.Failure? ==> res.error == EmptySeries
  {
    if |c| == 0 then Failure(EmptySeries)
    else match Rows(c, days)
      case Failure(e) => Failure(e)
      case Success(rows) => if |rows| == 0 then Success(None) else Success(Some(Project(c, rows, today)))
  }

  /**
   * On a non-empty series `analyze_target` always returns, and it returns
   * nothing exactly when no T is retested against any B at its list position
   * or before.
   */
  lemma NoneIffNoRetest(c: seq<real>, days: seq<int>, today: int)
    requires |c| > 0 && |days| == |c|
    ensures var d := FindBT(c, RiseThreshold).value;
      InSeries(c, d.breakouts) && InSeries(c, d.peaks) && |d.peaks| <= |d.breakouts|
    ensures var d := FindBT(c, RiseThreshold).value;
      var res := AnalyzeTarget(c, days, today);
      && res.Success?
      && (res.value.None? <==>
            forall k, q :: 0 <= q <= k < |d.peaks| ==> !Retested(c, d.peaks[k], d.breakouts[q]))
  {
    PeaksHaveTriggers(c, RiseThreshold);
    var d := FindBT(c, RiseThreshold).value;
    var bs, ts := d.breakouts, d.peaks;
    assert InSeries(c, ts);
    var rows := Table(c, days, bs, ts, |ts|);
    assert Rows(c, days) == Success(rows);
    if |rows| > 0 {
      TableMembers(c, days, bs, ts, |ts|, rows[0]);
      var k, q :| 0 <= q <= k < |ts| && Yields(c, days, bs, ts, k, q, rows[0]);
      PairRetested(c, days, ts, ts[k], bs[q]);
      assert Retested(c, ts[k], bs[q]);
    }
    if exists k, q :: 0 <= q <= k < |ts| && Retested(c, ts[k], bs[q]) {
      var k, q :| 0 <= q <= k < |ts| && Retested(c, ts[k], bs[q]);
      PairRetested(c, days, ts, ts[k], bs[q]);
      var rec := PairRecord(c, days, ts, ts[k], bs[q]).value;
      assert Yields(c, days, bs, ts, k, q, rec);
      TableMembers(c, days, bs, ts, |ts|, rec);
    }
  }

  /** Positions of a smallest and a largest value. */
  lemma {:induction false} Extremes(ps: seq<int>) returns (kmin: nat, kmax: nat)
    requires |ps| > 0
    ensures kmin < |ps| && kmax < |ps|
    ensures forall k :: 0 <= k < |ps| ==> ps[kmin] <= ps[k] <= ps[kmax]
  {
    if |ps| == 1 {
      kmin, kmax := 0, 0;
    } else {
      kmin, kmax := Extremes(ps[..|ps| - 1]);
      assert forall k :: 0 <= k < |ps| - 1 ==> ps[..|ps| - 1][k] == ps[k];
      if ps[|ps| - 1] < ps[kmin] {
        kmin := |ps| - 1;
      }
      if ps[|ps| - 1] > ps[kmax] {
        kmax := |ps| - 1;
      }
    }
  }

  /**
   * The projection from the last record. A `NextPeak` record is used as it
   * is: its target price and its period. A `FutureHigh` record falls back on
   * the volatility: the target is a whole number, at least the floor of 110 %
   * of a positive current close and above a current close of 10 or more, and
   * the period lies between the shortest and the longest recorded period (the
   * rows at `kmin` and `kmax`). Either way the target day is today plus the
   * period, and the expected return is taken against the last close.
   */
  lemma ProjectSpec(c: seq<real>, rows: seq<Record>, today: int) returns (kmin: nat, kmax: nat)
    requires |c| > 0 && |rows| > 0
    ensures kmin < |rows| && kmax < |rows|
    ensures forall k :: 0 <= k < |rows| ==> rows[kmin].period <= rows[k].period <= rows[kmax].period
    ensures var p := Project(c, rows, today);
      var last := rows[|rows| - 1];
      && p.targetDay == today + p.period
      && p.expectedReturn == ExpectedReturn(p.targetPrice, c[|c| - 1])
      && (last.kind == NextPeak ==> p.targetPrice == last.targetPrice && p.period == last.period)
    ensures var p := Project(c, rows, today);
      var current := c[|c| - 1];
      rows[|rows| - 1].kind == FutureHigh ==>
        && p.targetPrice == p.targetPrice.Floor as real
        && (current > 0.0 ==> p.targetPrice >= (current * Correction).Floor as real)
        && (current >= 10.0 ==> p.targetPrice > current)
        && rows[kmin].period <= p.period <= rows[kmax].period
  {
    var ps := Periods(rows);
    kmin, kmax := Extremes(ps);
    assert forall k :: 0 <= k < |rows| ==> ps[k] == rows[k].period;
    if rows[|rows| - 1].kind == FutureHigh {
      MeanBounds(ps, ps[kmin], ps[kmax]);
    }
  }

  /** With every recorded period positive, the projection's period is at least one day and its target day is after today. */
  lemma ProjectAhead(c: seq<real>, rows: seq<Record>, today: int)
    requires |c| > 0 && |rows| > 0
    requires forall k :: 0 <= k < |rows| ==> rows[k].period > 0
    ensures var p := Project(c, rows, today); p.period >= 1 && p.targetDay > today
  {
    var kmin, kmax := ProjectSpec(c, rows, today);
  }

  /**
   * With increasing dates every projection lies in the future: its period is
   * at least one day and its target day is after today.
   */
  lemma ProjectionInFuture(c: seq<real>, days: seq<int>, today: int)
    requires |c| > 0 && ValidDays(c, days)
    ensures var res := AnalyzeTarget(c, days, today);
      res.Success? && (res.value.Some? ==> res.value.value.period >= 1 && res.value.value.targetDay > today)
  {
    RetestsOfScan(c, days, RiseThreshold);
    PeaksHaveTriggers(c, RiseThreshold);
    var d := FindBT(c, RiseThreshold).value;
    var rows := AnalyzeRetests(c, days, d.breakouts, d.peaks).value;
    assert Rows(c, days) == Success(rows);
    if |rows| > 0 {
      ProjectAhead(c, rows, today);
    }
  }
}
