/**
 * The breakout/peak scan (`find_bt`, super_analysis.py:32-58).
 *
 * One forward pass over the closes keeps a running high. A close above it is
 * a breakout B. From the next close on, the first close at or above
 * `B * (1 + rise_threshold)` starts an up-leg, which is followed to the end of
 * its non-decreasing run; that last index is the peak T and becomes the
 * running high. A date is represented by its index into the series.
 */
module BreakoutPeak {
  import opened Wrappers
  import opened Series

  /** A B or T point: the index of its date in the series and its close. */
  datatype Point = Point(at: nat, price: real)

  /** The two lists `find_bt` returns, each in the order it appended them. */
  datatype Detection = Detection(breakouts: seq<Point>, peaks: seq<Point>)

  /** The scan's local variables between iterations of the outer loop. */
  datatype ScanState = ScanState(high: real, bs: seq<Point>, ts: seq<Point>)

  /**
   * The peak index of the up-leg a breakout at `i` starts, if the threshold
   * `c[i] * (1 + r)` is ever reached after `i`.
   */
  function Leg(c: seq<real>, r: real, i: nat): (p: Option<nat>)
    requires i < |c|
  {
    match FirstReach(c, c[i] * (1.0 + r), i + 1)
    case None => None
    case Some(j) => Some(RunEnd(c, j))
  }

  /** A leg's peak lies after its breakout. */
  lemma LegAfter(c: seq<real>, r: real, i: nat)
    requires i < |c|
    ensures Leg(c, r, i).Some? ==> i < Leg(c, r, i).value < |c|
  {
  }

  /** A leg's peak reaches the threshold of its breakout. */
  lemma LegReaches(c: seq<real>, r: real, i: nat, p: nat)
    requires i < |c| && Leg(c, r, i) == Some(p)
    ensures c[p] >= c[i] * (1.0 + r)
  {
    var j := FirstReach(c, c[i] * (1.0 + r), i + 1).value;
    FirstReachSpec(c, c[i] * (1.0 + r), i + 1);
    RunEndSpec(c, j);
    assert c[j] <= c[p];
  }

  /** A leg's peak is the last close of a non-decreasing run. */
  lemma LegEndsRun(c: seq<real>, r: real, i: nat, p: nat)
    requires i < |c| && Leg(c, r, i) == Some(p)
    ensures p + 1 == |c| || c[p + 1] < c[p]
  {
    RunEndSpec(c, FirstReach(c, c[i] * (1.0 + r), i + 1).value);
  }

  /** What the leg search guarantees about the peak it returns. */
  lemma LegFacts(c: seq<real>, r: real, i: nat)
    requires i < |c|
    ensures Leg(c, r, i).None? <==> forall k :: i < k < |c| ==> c[k] < c[i] * (1.0 + r)
    ensures Leg(c, r, i).Some? ==>
      var p := Leg(c, r, i).value;
      var j := FirstReach(c, c[i] * (1.0 + r), i + 1).value;
      && i < j <= p < |c|
      && c[j] >= c[i] * (1.0 + r)
      && c[p] >= c[i] * (1.0 + r)
      && (p + 1 == |c| || c[p + 1] < c[p])
      && (forall k1, k2 :: j <= k1 <= k2 <= p ==> c[k1] <= c[k2])
      && (forall k :: i < k <= p ==> c[k] <= c[p])
  {
    var level := c[i] * (1.0 + r);
    var fr := FirstReach(c, level, i + 1);
    FirstReachSpec(c, level, i + 1);
    if fr.Some? {
      var j := fr.value;
      var p := RunEnd(c, j);
      RunEndSpec(c, j);
      forall k | i < k <= p
        ensures c[k] <= c[p]
      {
        if k < j {
          assert c[k] < level <= c[j] <= c[p];
        }
      }
    }
  }

  /** One iteration of the outer loop, at index `i`. */
  function Step(c: seq<real>, r: real, st: ScanState, i: nat): ScanState
    requires i < |c|
  {
    var price := c[i];
    if price > st.high then
      var b := Point(i, price);
      match Leg(c, r, i)
      case None => ScanState(Max(st.high, price), st.bs + [b], st.ts)
      case Some(p) => ScanState(Max(c[p], price), st.bs + [b], st.ts + [Point(p, c[p])])
    else
      ScanState(Max(st.high, price), st.bs, st.ts)
  }

  /**
   * The outer loop from index `i` to the end. The assignment `i = peak_idx`
   * inside the Python `for` has no effect, so the scan always goes on at `i + 1`.
   */
  function ScanFrom(c: seq<real>, r: real, i: nat, st: ScanState): ScanState
    decreases |c| - i
  {
    if i >= |c| then st else ScanFrom(c, r, i + 1, Step(c, r, st, i))
  }

  /** `find_bt(df, rise_threshold)`; an empty frame fails on `closes[0]`. */
  function FindBT(c: seq<real>, r: real): (res: Result<Detection, Error>)
    ensures res.Failure? <==> |c| == 0
  {
    if |c| == 0 then Failure(EmptySeries)
    else
      var st := ScanFrom(c, r, 1, ScanState(c[0], [], []));
      Success(Detection(st.bs, st.ts))
  }

  predicate InSeries(c: seq<real>, ps: seq<Point>)
  {
    forall k :: 0 <= k < |ps| ==> ps[k].at < |c|
  }

  /**
   * The peaks a list of breakouts gives rise to: for each breakout in order,
   * the peak of its up-leg when it has one.
   */
  function Peaks(c: seq<real>, r: real, bs: seq<Point>): seq<Point>
    requires InSeries(c, bs)
  {
    if |bs| == 0 then []
    else
      var b := bs[|bs| - 1];
      Peaks(c, r, bs[..|bs| - 1]) + match Leg(c, r, b.at)
        case None => []
        case Some(p) => [Point(p, c[p])]
  }

  /**
   * Every peak is the leg peak of a distinct breakout: the k-th peak comes from
   * a breakout at list position k or later, so there are never more peaks than
   * breakouts.
   */
  lemma {:induction false} PeaksTriggers(c: seq<real>, r: real, bs: seq<Point>)
    requires InSeries(c, bs)
    ensures |Peaks(c, r, bs)| <= |bs|
    ensures forall k :: 0 <= k < |Peaks(c, r, bs)| ==>
      var t := Peaks(c, r, bs)[k];
      t.at < |c| && t.price == c[t.at] &&
      exists q :: k <= q < |bs| && Leg(c, r, bs[q].at) == Some(t.at)
  {
    if |bs| > 0 {
      var front := bs[..|bs| - 1];
      PeaksTriggers(c, r, front);
      var ts := Peaks(c, r, bs);
      var fs := Peaks(c, r, front);
      forall k | 0 <= k < |ts|
        ensures ts[k].at < |c| && ts[k].price == c[ts[k].at]
        ensures exists q :: k <= q < |bs| && Leg(c, r, bs[q].at) == Some(ts[k].at)
      {
        if k < |fs| {
          assert ts[k] == fs[k];
          var q :| k <= q < |front| && Leg(c, r, front[q].at) == Some(fs[k].at);
          assert bs[q] == front[q];
        } else {
          assert k == |fs| <= |front|;
          assert Leg(c, r, bs[|bs| - 1].at) == Some(ts[k].at);
        }
      }
    }
  }

  /** The running high is at least every close before index `i`. */
  predicate HighCovers(c: seq<real>, i: nat, high: real)
    requires i <= |c|
  {
    forall m :: 0 <= m < i ==> c[m] <= high
  }

  /** Breakouts are closes seen before index `i`, each strictly above every earlier close. */
  predicate RecordHighs(c: seq<real>, i: nat, bs: seq<Point>)
  {
    && (forall q :: 0 <= q < |bs| ==> 1 <= bs[q].at < i && bs[q].at < |c| && bs[q].price == c[bs[q].at])
    && (forall q, m :: 0 <= q < |bs| && 0 <= m < bs[q].at < |c| ==> c[m] < bs[q].price)
  }

  predicate Ordered(ps: seq<Point>)
  {
    forall k1, k2 :: 0 <= k1 < k2 < |ps| ==> ps[k1].at < ps[k2].at
  }

  /** Closes still ahead of the scan but inside the last leg are covered by the high. */
  predicate PendingCovered(c: seq<real>, i: nat, st: ScanState)
  {
    |st.ts| > 0 ==> forall m :: i <= m <= st.ts[|st.ts| - 1].at && m < |c| ==> c[m] <= st.high
  }

  predicate PriceOrdered(ps: seq<Point>)
  {
    forall k1, k2 :: 0 <= k1 < k2 < |ps| ==> ps[k1].price < ps[k2].price
  }

  /** Peaks are closes of the series. */
  predicate AreCloses(c: seq<real>, ps: seq<Point>)
  {
    forall k :: 0 <= k < |ps| ==> ps[k].at < |c| && ps[k].price == c[ps[k].at]
  }

  /** Every breakout after one whose leg found a peak lies beyond that peak. */
  predicate NextBeyondPeak(c: seq<real>, r: real, bs: seq<Point>)
    requires InSeries(c, bs)
  {
    forall q1, q2 :: 0 <= q1 < q2 < |bs| && Leg(c, r, bs[q1].at).Some? ==> Leg(c, r, bs[q1].at).value < bs[q2].at
  }

  /** No leg peak lies beyond the last peak found. */
  predicate LegsCovered(c: seq<real>, r: real, bs: seq<Point>, ts: seq<Point>)
    requires InSeries(c, bs)
  {
    forall q :: 0 <= q < |bs| && Leg(c, r, bs[q].at).Some? ==> |ts| > 0 && Leg(c, r, bs[q].at).value <= ts[|ts| - 1].at
  }

  /** The facts the outer loop keeps, with `i` the next index to process. */
  predicate Inv(c: seq<real>, r: real, i: nat, st: ScanState)
  {
    && 1 <= i <= |c|
    && HighCovers(c, i, st.high)
    && RecordHighs(c, i, st.bs)
    && Ordered(st.bs)
    && InSeries(c, st.bs)
    && st.ts == Peaks(c, r, st.bs)
    && InSeries(c, st.ts)
    && AreCloses(c, st.ts)
    && PendingCovered(c, i, st)
    && Ordered(st.ts)
    && NextBeyondPeak(c, r, st.bs)
    && LegsCovered(c, r, st.bs, st.ts)
  }

  lemma InvInit(c: seq<real>, r: real)
    requires |c| > 0
    ensures Inv(c, r, 1, ScanState(c[0], [], []))
  {
  }

  /** A close not above the running high leaves the state as it is. */
  lemma QuietStep(c: seq<real>, r: real, st: ScanState, i: nat)
    requires i < |c|
    requires c[i] <= st.high
    ensures Step(c, r, st, i) == st
  {
  }

  lemma PeaksSnoc(c: seq<real>, r: real, bs: seq<Point>, b: Point)
    requires InSeries(c, bs) && b.at < |c|
    ensures InSeries(c, bs + [b])
    ensures Peaks(c, r, bs + [b]) == Peaks(c, r, bs) + match Leg(c, r, b.at)
      case None => []
      case Some(p) => [Point(p, c[p])]
  {
    assert (bs + [b])[..|bs|] == bs;
  }

  lemma AppendRecordHigh(c: seq<real>, i: nat, high: real, bs: seq<Point>)
    requires 1 <= i < |c| && HighCovers(c, i, high) && c[i] > high
    requires RecordHighs(c, i, bs) && Ordered(bs)
    ensures RecordHighs(c, i + 1, bs + [Point(i, c[i])])
    ensures Ordered(bs + [Point(i, c[i])])
  {
    var bs' := bs + [Point(i, c[i])];
    assert forall q :: 0 <= q < |bs| ==> bs'[q] == bs[q];
  }

  /** A breakout lies beyond the last peak found so far. */
  lemma BreakoutBeyondLastPeak(c: seq<real>, i: nat, st: ScanState)
    requires i < |c| && c[i] > st.high
    requires PendingCovered(c, i, st)
    requires InSeries(c, st.ts)
    ensures |st.ts| > 0 ==> st.ts[|st.ts| - 1].at < i
  {
  }

  lemma AppendNextBeyond(c: seq<real>, r: real, i: nat, st: ScanState)
    requires i < |c|
    requires InSeries(c, st.bs) && NextBeyondPeak(c, r, st.bs) && LegsCovered(c, r, st.bs, st.ts)
    requires |st.ts| > 0 ==> st.ts[|st.ts| - 1].at < i
    ensures InSeries(c, st.bs + [Point(i, c[i])])
    ensures NextBeyondPeak(c, r, st.bs + [Point(i, c[i])])
  {
    var bs' := st.bs + [Point(i, c[i])];
    forall q1, q2 | 0 <= q1 < q2 < |bs'| && Leg(c, r, bs'[q1].at).Some?
      ensures Leg(c, r, bs'[q1].at).value < bs'[q2].at
    {
      assert bs'[q1] == st.bs[q1];
      if q2 < |st.bs| {
        assert bs'[q2] == st.bs[q2];
      }
    }
  }

  /** The closes of a new leg up to its peak are at most the peak. */
  lemma NewLegCovered(c: seq<real>, r: real, i: nat, p: nat)
    requires i < |c| && Leg(c, r, i) == Some(p)
    ensures i < p < |c|
    ensures forall m :: i < m <= p ==> c[m] <= c[p]
  {
    LegFacts(c, r, i);
  }

  lemma RaiseHigh(c: seq<real>, i: nat, high: real, high': real)
    requires i < |c| && HighCovers(c, i, high)
    requires high <= high' && c[i] <= high'
    ensures HighCovers(c, i + 1, high')
  {
  }

  /** Shared facts about appending the breakout at `i` to an invariant state. */
  lemma AppendBreakout(c: seq<real>, r: real, i: nat, st: ScanState)
    requires Inv(c, r, i, st)
    requires i < |c| && c[i] > st.high
    ensures RecordHighs(c, i + 1, st.bs + [Point(i, c[i])])
    ensures Ordered(st.bs + [Point(i, c[i])])
    ensures InSeries(c, st.bs + [Point(i, c[i])])
    ensures NextBeyondPeak(c, r, st.bs + [Point(i, c[i])])
    ensures |st.ts| > 0 ==> st.ts[|st.ts| - 1].at < i
    ensures Peaks(c, r, st.bs + [Point(i, c[i])]) == st.ts + match Leg(c, r, i)
      case None => []
      case Some(p) => [Point(p, c[p])]
  {
    AppendRecordHigh(c, i, st.high, st.bs);
    BreakoutBeyondLastPeak(c, i, st);
    AppendNextBeyond(c, r, i, st);
    PeaksSnoc(c, r, st.bs, Point(i, c[i]));
  }

  lemma OpenBreakoutInv(c: seq<real>, r: real, i: nat, st: ScanState)
    requires Inv(c, r, i, st)
    requires i < |c| && c[i] > st.high && Leg(c, r, i).None?
    ensures Inv(c, r, i + 1, Step(c, r, st, i))
  {
    AppendBreakout(c, r, i, st);
    var st' := ScanState(Max(st.high, c[i]), st.bs + [Point(i, c[i])], st.ts);
    assert Step(c, r, st, i) == st';
    RaiseHigh(c, i, st.high, st'.high);
    assert PendingCovered(c, i + 1, st');
    assert forall q :: 0 <= q < |st.bs| ==> st'.bs[q] == st.bs[q];
    assert LegsCovered(c, r, st'.bs, st'.ts);
  }

  lemma AppendPeak(c: seq<real>, ts: seq<Point>, t: Point)
    requires InSeries(c, ts) && AreCloses(c, ts) && Ordered(ts)
    requires t.at < |c| && t.price == c[t.at]
    requires |ts| > 0 ==> ts[|ts| - 1].at < t.at
    ensures InSeries(c, ts + [t]) && AreCloses(c, ts + [t]) && Ordered(ts + [t])
  {
    var ts' := ts + [t];
    assert forall k :: 0 <= k < |ts| ==> ts'[k] == ts[k];
  }

  lemma PeakBreakoutInv(c: seq<real>, r: real, i: nat, st: ScanState, p: nat)
    requires Inv(c, r, i, st)
    requires i < |c| && c[i] > st.high && Leg(c, r, i) == Some(p)
    ensures Inv(c, r, i + 1, Step(c, r, st, i))
  {
    AppendBreakout(c, r, i, st);
    NewLegCovered(c, r, i, p);
    var ts' := st.ts + [Point(p, c[p])];
    var st' := ScanState(Max(c[p], c[i]), st.bs + [Point(i, c[i])], ts');
    assert Step(c, r, st, i) == st';
    RaiseHigh(c, i, st.high, st'.high);
    assert PendingCovered(c, i + 1, st');
    AppendPeak(c, st.ts, Point(p, c[p]));
    assert forall q :: 0 <= q < |st.bs| ==> st'.bs[q] == st.bs[q];
    assert LegsCovered(c, r, st'.bs, ts');
  }

  /** With a non-negative threshold and close, a leg's peak is at least its breakout. */
  lemma RisingPeak(c: seq<real>, r: real, i: nat, p: nat)
    requires r >= 0.0 && i < |c| && c[i] >= 0.0 && Leg(c, r, i) == Some(p)
    ensures c[p] >= c[i]
  {
    LegReaches(c, r, i, p);
    assert c[i] * (1.0 + r) == c[i] + c[i] * r;
    assert c[i] * r >= 0.0;
  }

  lemma BreakoutStepInv(c: seq<real>, r: real, i: nat, st: ScanState)
    requires Inv(c, r, i, st)
    requires i < |c| && c[i] > st.high
    ensures Inv(c, r, i + 1, Step(c, r, st, i))
  {
    match Leg(c, r, i)
    case None => OpenBreakoutInv(c, r, i, st);
    case Some(p) => PeakBreakoutInv(c, r, i, st, p);
  }

  lemma StepInv(c: seq<real>, r: real, i: nat, st: ScanState)
    requires Inv(c, r, i, st)
    requires i < |c|
    ensures Inv(c, r, i + 1, Step(c, r, st, i))
  {
    if c[i] > st.high {
      BreakoutStepInv(c, r, i, st);
    } else {
      QuietStep(c, r, st, i);
    }
  }

  /** A property of the loop state that every step keeps holds when the scan ends. */
  lemma {:induction false} ScanKeeps(c: seq<real>, r: real, p: (nat, ScanState) -> bool, i: nat, st: ScanState)
    requires forall j: nat, s: ScanState :: j < |c| && p(j, s) ==> p(j + 1, Step(c, r, s, j))
    requires i <= |c| && p(i, st)
    ensures p(|c|, ScanFrom(c, r, i, st))
    decreases |c| - i
  {
    if i < |c| {
      ScanKeeps(c, r, p, i + 1, Step(c, r, st, i));
    }
  }

  /** The state the scan ends in, for a non-empty series. */
  lemma FinalInv(c: seq<real>, r: real)
    requires |c| > 0
    ensures Inv(c, r, |c|, ScanFrom(c, r, 1, ScanState(c[0], [], [])))
    ensures FindBT(c, r).value.breakouts == ScanFrom(c, r, 1, ScanState(c[0], [], [])).bs
    ensures FindBT(c, r).value.peaks == ScanFrom(c, r, 1, ScanState(c[0], [], [])).ts
  {
    var p := (j: nat, s: ScanState) => Inv(c, r, j, s);
    StepKeepsInv(c, r);
    InvInit(c, r);
    ScanKeeps(c, r, p, 1, ScanState(c[0], [], []));
  }

  /** One step of the scan keeps the invariant, from any index before the end and any state. */
  lemma StepKeepsInv(c: seq<real>, r: real)
    ensures forall j: nat, s: ScanState :: j < |c| && Inv(c, r, j, s) ==> Inv(c, r, j + 1, Step(c, r, s, j))
  {
    forall j: nat, s: ScanState | j < |c| && Inv(c, r, j, s)
      ensures Inv(c, r, j + 1, Step(c, r, s, j))
    {
      StepInv(c, r, j, s);
    }
  }

  /**
   * The running high exactly: the highest close before `i`, raised to the last
   * peak while the scan is still inside that peak's leg.
   */
  predicate HighExact(c: seq<real>, i: nat, st: ScanState)
    requires 1 <= i <= |c|
  {
    if |st.ts| > 0 && i <= st.ts[|st.ts| - 1].at < |c| then
      st.high == Max(PrefixMax(c, i), c[st.ts[|st.ts| - 1].at])
    else
      st.high == PrefixMax(c, i)
  }

  lemma HighExactInit(c: seq<real>)
    requires |c| > 0
    ensures HighExact(c, 1, ScanState(c[0], [], []))
  {
  }

  lemma StepHighExact(c: seq<real>, r: real, i: nat, st: ScanState)
    requires Inv(c, r, i, st) && HighExact(c, i, st) && i < |c|
    ensures HighExact(c, i + 1, Step(c, r, st, i))
  {
    assert PrefixMax(c, i + 1) == Max(PrefixMax(c, i), c[i]);
    if c[i] > st.high {
      BreakoutBeyondLastPeak(c, i, st);
      LegAfter(c, r, i);
    } else {
      QuietStep(c, r, st, i);
    }
  }

  /** The close at `i` lies inside the leg of a breakout before it: after the breakout, up to its peak. */
  predicate InsideLeg(c: seq<real>, r: real, bs: seq<Point>, i: nat)
  {
    exists q :: 0 <= q < |bs| && bs[q].at < i < |c| && Leg(c, r, bs[q].at).Some? && i <= Leg(c, r, bs[q].at).value
  }

  /**
   * The breakouts among the closes before `i` are exactly the closes above
   * every earlier close that lie outside every earlier breakout's leg.
   */
  predicate Registered(c: seq<real>, r: real, i: nat, bs: seq<Point>)
    requires i <= |c|
  {
    forall k :: 1 <= k < i ==> (Point(k, c[k]) in bs <==> c[k] > PrefixMax(c, k) && !InsideLeg(c, r, bs, k))
  }

  /** The scan's test `price > prev_high`, stated without the running high. */
  lemma BreakoutTest(c: seq<real>, r: real, i: nat, st: ScanState)
    requires Inv(c, r, i, st) && HighExact(c, i, st) && i < |c|
    ensures c[i] > st.high <==> c[i] > PrefixMax(c, i) && !InsideLeg(c, r, st.bs, i)
  {
    if |st.ts| > 0 && i <= st.ts[|st.ts| - 1].at {
      var q := PeakTrigger(c, r, st.bs, |st.ts| - 1);
      assert st.bs[q].at < i;
      assert InsideLeg(c, r, st.bs, i);
    } else {
      forall q | 0 <= q < |st.bs| && st.bs[q].at < i && Leg(c, r, st.bs[q].at).Some?
        ensures Leg(c, r, st.bs[q].at).value < i
      {
      }
    }
  }

  /** A breakout appended at or after `k` does not change whether `k` lies inside a leg. */
  lemma InsideLegSnoc(c: seq<real>, r: real, bs: seq<Point>, b: Point, k: nat)
    requires k <= b.at
    ensures InsideLeg(c, r, bs + [b], k) <==> InsideLeg(c, r, bs, k)
  {
    var bs' := bs + [b];
    if InsideLeg(c, r, bs', k) {
      var q :| 0 <= q < |bs'| && bs'[q].at < k < |c| && Leg(c, r, bs'[q].at).Some? && k <= Leg(c, r, bs'[q].at).value;
      assert bs'[q] == bs[q];
    }
    if InsideLeg(c, r, bs, k) {
      var q :| 0 <= q < |bs| && bs[q].at < k < |c| && Leg(c, r, bs[q].at).Some? && k <= Leg(c, r, bs[q].at).value;
      assert bs'[q] == bs[q];
    }
  }

  /** A breakout at `i` extends the registered prefix by one. */
  lemma RegisterBreakout(c: seq<real>, r: real, i: nat, bs: seq<Point>)
    requires 1 <= i < |c| && Registered(c, r, i, bs) && Point(i, c[i]) !in bs
    requires c[i] > PrefixMax(c, i) && !InsideLeg(c, r, bs, i)
    ensures Registered(c, r, i + 1, bs + [Point(i, c[i])])
  {
    var bs' := bs + [Point(i, c[i])];
    forall k | 1 <= k < i + 1
      ensures Point(k, c[k]) in bs' <==> c[k] > PrefixMax(c, k) && !InsideLeg(c, r, bs', k)
    {
      InsideLegSnoc(c, r, bs, Point(i, c[i]), k);
      assert Point(k, c[k]) in bs' <==> Point(k, c[k]) in bs || k == i;
    }
  }

  /** A close that is not a breakout extends the registered prefix by one. */
  lemma RegisterQuiet(c: seq<real>, r: real, i: nat, bs: seq<Point>)
    requires 1 <= i < |c| && Registered(c, r, i, bs) && Point(i, c[i]) !in bs
    requires !(c[i] > PrefixMax(c, i) && !InsideLeg(c, r, bs, i))
    ensures Registered(c, r, i + 1, bs)
  {
    forall k | 1 <= k < i + 1
      ensures Point(k, c[k]) in bs <==> c[k] > PrefixMax(c, k) && !InsideLeg(c, r, bs, k)
    {
      if k < i {
        assert Point(k, c[k]) in bs <==> c[k] > PrefixMax(c, k) && !InsideLeg(c, r, bs, k);
      }
    }
  }

  lemma StepRegistered(c: seq<real>, r: real, i: nat, st: ScanState)
    requires Inv(c, r, i, st) && HighExact(c, i, st) && Registered(c, r, i, st.bs) && i < |c|
    ensures Registered(c, r, i + 1, Step(c, r, st, i).bs)
  {
    BreakoutTest(c, r, i, st);
    assert Point(i, c[i]) !in st.bs by {
      assert forall q :: 0 <= q < |st.bs| ==> st.bs[q].at < i;
    }
    if c[i] > st.high {
      RegisterBreakout(c, r, i, st.bs);
    } else {
      QuietStep(c, r, st, i);
      RegisterQuiet(c, r, i, st.bs);
    }
  }

  /** What the scan keeps for completeness: the invariant, the exact high and the registered breakouts. */
  predicate FullInv(c: seq<real>, r: real, i: nat, st: ScanState)
  {
    Inv(c, r, i, st) && HighExact(c, i, st) && Registered(c, r, i, st.bs)
  }

  lemma StepKeepsFullInv(c: seq<real>, r: real)
    ensures forall j: nat, s: ScanState :: j < |c| && FullInv(c, r, j, s) ==> FullInv(c, r, j + 1, Step(c, r, s, j))
  {
    forall j: nat, s: ScanState | j < |c| && FullInv(c, r, j, s)
      ensures FullInv(c, r, j + 1, Step(c, r, s, j))
    {
      StepInv(c, r, j, s);
      StepHighExact(c, r, j, s);
      StepRegistered(c, r, j, s);
    }
  }

  /** At the end of the scan every close after the first is registered as the scan's test decides. */
  lemma FinalRegistered(c: seq<real>, r: real)
    requires |c| > 0
    ensures Registered(c, r, |c|, FindBT(c, r).value.breakouts)
    ensures RecordHighs(c, |c|, FindBT(c, r).value.breakouts)
  {
    var p := (j: nat, s: ScanState) => FullInv(c, r, j, s);
    StepKeepsFullInv(c, r);
    InvInit(c, r);
    HighExactInit(c);
    ScanKeeps(c, r, p, 1, ScanState(c[0], [], []));
  }

  /**
   * B points are exactly the closes `find_bt` registers: a close after the
   * first is a breakout iff it is above every earlier close and no earlier
   * breakout's leg reaches it.
   */
  lemma BreakoutsComplete(c: seq<real>, r: real, i: nat)
    requires 1 <= i < |c|
    ensures var bs := FindBT(c, r).value.breakouts;
      (exists q :: 0 <= q < |bs| && bs[q].at == i) <==>
        && (forall m :: 0 <= m < i ==> c[m] < c[i])
        && !(exists q :: 0 <= q < |bs| && bs[q].at < i && Leg(c, r, bs[q].at).Some? && i <= Leg(c, r, bs[q].at).value)
  {
    FinalRegistered(c, r);
    var bs := FindBT(c, r).value.breakouts;
    var m := PrefixMaxSpec(c, i);
    if exists q :: 0 <= q < |bs| && bs[q].at == i {
      var q :| 0 <= q < |bs| && bs[q].at == i;
      assert bs[q] == Point(i, c[i]);
    }
    if Point(i, c[i]) in bs {
      var q :| 0 <= q < |bs| && bs[q] == Point(i, c[i]);
      assert bs[q].at == i;
    }
  }

  /**
   * B points are record highs: each is a close strictly above every earlier
   * close, so breakouts come in strictly increasing date and price order.
   */
  lemma BreakoutsAreRecordHighs(c: seq<real>, r: real)
    requires |c| > 0
    ensures var bs := FindBT(c, r).value.breakouts;
      && (forall q :: 0 <= q < |bs| ==> 1 <= bs[q].at < |c| && bs[q].price == c[bs[q].at])
      && (forall q, m :: 0 <= q < |bs| && 0 <= m < bs[q].at ==> c[m] < bs[q].price)
      && (forall q1, q2 :: 0 <= q1 < q2 < |bs| ==> bs[q1].at < bs[q2].at && bs[q1].price < bs[q2].price)
  {
    FinalInv(c, r);
  }

  /**
   * Each T is the end of the non-decreasing run that starts at the first close
   * reaching its triggering B's threshold. The k-th T comes from a B at list
   * position k or later, so there are never more T points than B points and
   * every B at position k or before lies strictly before the k-th T.
   */
  lemma PeaksHaveTriggers(c: seq<real>, r: real)
    requires |c| > 0
    ensures InSeries(c, FindBT(c, r).value.breakouts)
    ensures var d := FindBT(c, r).value;
      && |d.peaks| <= |d.breakouts|
      && d.peaks == Peaks(c, r, d.breakouts)
      && (forall k :: 0 <= k < |d.peaks| ==>
            && d.peaks[k].at < |c| && d.peaks[k].price == c[d.peaks[k].at]
            && (d.peaks[k].at + 1 == |c| || c[d.peaks[k].at + 1] < c[d.peaks[k].at])
            && exists q :: k <= q < |d.breakouts| && Leg(c, r, d.breakouts[q].at) == Some(d.peaks[k].at))
      && (forall q, k :: 0 <= q <= k < |d.peaks| ==> d.breakouts[q].at < d.peaks[k].at)
  {
    FinalShape(c, r);
    var d := FindBT(c, r).value;
    PeaksTriggers(c, r, d.breakouts);
    TriggeredPeaks(c, r, d.breakouts);
  }

  /** The breakouts `find_bt` returns are in date order and determine its peaks. */
  lemma FinalShape(c: seq<real>, r: real)
    requires |c| > 0
    ensures var d := FindBT(c, r).value;
      && InSeries(c, d.breakouts) && Ordered(d.breakouts)
      && d.peaks == Peaks(c, r, d.breakouts)
  {
    FinalInv(c, r);
  }

  /** Both lists index into the series, and there are never more peaks than breakouts. */
  lemma DetectionInSeries(c: seq<real>, r: real)
    requires |c| > 0
    ensures var d := FindBT(c, r).value;
      InSeries(c, d.breakouts) && InSeries(c, d.peaks) && |d.peaks| <= |d.breakouts|
  {
    PeaksHaveTriggers(c, r);
  }

  /** The breakout whose leg the k-th peak ends sits at list position k or later. */
  lemma PeakTrigger(c: seq<real>, r: real, bs: seq<Point>, k: nat) returns (q: nat)
    requires InSeries(c, bs) && k < |Peaks(c, r, bs)|
    ensures k <= q < |bs| && Leg(c, r, bs[q].at) == Some(Peaks(c, r, bs)[k].at)
  {
    PeaksTriggers(c, r, bs);
    q :| k <= q < |bs| && Leg(c, r, bs[q].at) == Some(Peaks(c, r, bs)[k].at);
  }

  /** The k-th peak ends a non-decreasing run. */
  lemma PeakEndsRun(c: seq<real>, r: real, bs: seq<Point>, k: nat)
    requires InSeries(c, bs) && k < |Peaks(c, r, bs)|
    ensures Peaks(c, r, bs)[k].at < |c|
    ensures Peaks(c, r, bs)[k].at + 1 == |c| || c[Peaks(c, r, bs)[k].at + 1] < c[Peaks(c, r, bs)[k].at]
  {
    var t := Peaks(c, r, bs)[k];
    var q := PeakTrigger(c, r, bs, k);
    LegAfter(c, r, bs[q].at);
    LegEndsRun(c, r, bs[q].at, t.at);
  }

  /** Every breakout at list position k or before lies strictly before the k-th peak. */
  lemma PeakAfterBreakouts(c: seq<real>, r: real, bs: seq<Point>, k: nat)
    requires InSeries(c, bs) && Ordered(bs) && k < |Peaks(c, r, bs)|
    ensures k < |bs|
    ensures forall q :: 0 <= q <= k ==> bs[q].at < Peaks(c, r, bs)[k].at
  {
    var t := Peaks(c, r, bs)[k];
    var q := PeakTrigger(c, r, bs, k);
    LegAfter(c, r, bs[q].at);
    assert bs[q].at < t.at;
  }

  lemma TriggeredPeaks(c: seq<real>, r: real, bs: seq<Point>)
    requires InSeries(c, bs) && Ordered(bs)
    ensures |Peaks(c, r, bs)| <= |bs|
    ensures var ts := Peaks(c, r, bs);
      && (forall k :: 0 <= k < |ts| ==> ts[k].at < |c| && (ts[k].at + 1 == |c| || c[ts[k].at + 1] < c[ts[k].at]))
      && (forall q, k :: 0 <= q <= k < |ts| ==> bs[q].at < ts[k].at)
  {
    var ts := Peaks(c, r, bs);
    PeaksTriggers(c, r, bs);
    forall k | 0 <= k < |ts|
      ensures ts[k].at < |c| && (ts[k].at + 1 == |c| || c[ts[k].at + 1] < c[ts[k].at])
      ensures forall q :: 0 <= q <= k ==> bs[q].at < ts[k].at
    {
      PeakEndsRun(c, r, bs, k);
      PeakAfterBreakouts(c, r, bs, k);
    }
  }

  /** What a peak learns from the breakout whose leg it ends. */
  lemma TriggerFacts(c: seq<real>, r: real, b: Point, t: Point)
    requires b.at < |c| && b.price == c[b.at]
    requires t.at < |c| && t.price == c[t.at]
    requires Leg(c, r, b.at) == Some(t.at)
    ensures b.at < t.at
    ensures t.price >= b.price * (1.0 + r)
    ensures t.at + 1 == |c| || c[t.at + 1] < c[t.at]
  {
    LegAfter(c, r, b.at);
    LegReaches(c, r, b.at, t.at);
    LegEndsRun(c, r, b.at, t.at);
  }

  /**
   * T points come in strictly increasing date order, and the breakout after
   * one whose leg found a peak lies beyond that peak. With a non-negative
   * threshold and first close, T prices strictly increase too.
   */
  lemma PeaksStrictlyOrdered(c: seq<real>, r: real)
    requires |c| > 0
    ensures InSeries(c, FindBT(c, r).value.breakouts)
    ensures var d := FindBT(c, r).value;
      && (forall k1, k2 :: 0 <= k1 < k2 < |d.peaks| ==> d.peaks[k1].at < d.peaks[k2].at)
      && (forall q1, q2 :: 0 <= q1 < q2 < |d.breakouts| && Leg(c, r, d.breakouts[q1].at).Some? ==>
            Leg(c, r, d.breakouts[q1].at).value < d.breakouts[q2].at)
      && (r >= 0.0 && c[0] >= 0.0 ==>
            forall k1, k2 :: 0 <= k1 < k2 < |d.peaks| ==> d.peaks[k1].price < d.peaks[k2].price)
  {
    FinalInv(c, r);
    if r >= 0.0 && c[0] >= 0.0 {
      PeakPricesRise(c, r, FindBT(c, r).value.breakouts);
    }
  }

  /**
   * With a non-negative threshold and first close, a later peak is above an
   * earlier one: the later peak's breakout lies beyond the earlier peak, so it
   * is above it, and the later peak is at least its breakout.
   */
  lemma PeakPricesRise(c: seq<real>, r: real, bs: seq<Point>)
    requires |c| > 0 && r >= 0.0 && c[0] >= 0.0
    requires InSeries(c, bs) && RecordHighs(c, |c|, bs) && NextBeyondPeak(c, r, bs)
    requires Ordered(Peaks(c, r, bs))
    ensures PriceOrdered(Peaks(c, r, bs))
  {
    var ts := Peaks(c, r, bs);
    forall k1, k2 | 0 <= k1 < k2 < |ts|
      ensures ts[k1].price < ts[k2].price
    {
      PeakPairRises(c, r, bs, k1, k2);
    }
  }

  lemma PeakPairRises(c: seq<real>, r: real, bs: seq<Point>, k1: nat, k2: nat)
    requires |c| > 0 && r >= 0.0 && c[0] >= 0.0
    requires InSeries(c, bs) && RecordHighs(c, |c|, bs) && NextBeyondPeak(c, r, bs)
    requires Ordered(Peaks(c, r, bs))
    requires k1 < k2 < |Peaks(c, r, bs)|
    ensures Peaks(c, r, bs)[k1].price < Peaks(c, r, bs)[k2].price
  {
    var ts := Peaks(c, r, bs);
    PeaksTriggers(c, r, bs);
    var t1, t2 := ts[k1], ts[k2];
    var q1 :| k1 <= q1 < |bs| && Leg(c, r, bs[q1].at) == Some(t1.at);
    var q2 :| k2 <= q2 < |bs| && Leg(c, r, bs[q2].at) == Some(t2.at);
    TriggerOrder(c, r, bs, q1, q2, t1.at, t2.at);
    var b := bs[q2];
    assert c[t1.at] < b.price;
    assert c[0] < b.price;
    RisingPeak(c, r, b.at, t2.at);
  }

  /** Of two peaks in date order, the earlier one's breakout comes first and the later breakout lies beyond it. */
  lemma TriggerOrder(c: seq<real>, r: real, bs: seq<Point>, q1: nat, q2: nat, t1: nat, t2: nat)
    requires InSeries(c, bs) && NextBeyondPeak(c, r, bs)
    requires q1 < |bs| && q2 < |bs| && t1 < t2
    requires Leg(c, r, bs[q1].at) == Some(t1) && Leg(c, r, bs[q2].at) == Some(t2)
    ensures q1 < q2 && t1 < bs[q2].at
  {
    LegAfter(c, r, bs[q1].at);
  }

  /**
   * The scan as it would run if `i = peak_idx` really moved the loop on: after
   * a peak is found the next index looked at is the one after the peak.
   */
  function SkipScanFrom(c: seq<real>, r: real, i: nat, st: ScanState): ScanState
    decreases |c| - i
  {
    if i >= |c| then st
    else
      var next := if c[i] > st.high && Leg(c, r, i).Some? then Leg(c, r, i).value + 1 else i + 1;
      LegAfter(c, r, i);
      SkipScanFrom(c, r, next, Step(c, r, st, i))
  }

  /** Steps over closes that do not exceed the running high change nothing. */
  lemma {:induction false} IdleRun(c: seq<real>, r: real, a: nat, b: nat, st: ScanState)
    requires a <= b <= |c|
    requires forall m :: a <= m < b ==> c[m] <= st.high
    ensures ScanFrom(c, r, a, st) == ScanFrom(c, r, b, st)
    decreases b - a
  {
    if a < b {
      QuietStep(c, r, st, a);
      IdleRun(c, r, a + 1, b, st);
    }
  }

  /** One skipping step over a breakout whose leg peaks at `p` lands just after `p`. */
  lemma SkipOverLeg(c: seq<real>, r: real, i: nat, st: ScanState, p: nat)
    requires i < |c| && c[i] > st.high && Leg(c, r, i) == Some(p)
    ensures SkipScanFrom(c, r, i, st) == SkipScanFrom(c, r, p + 1, Step(c, r, st, i))
    ensures ScanFrom(c, r, i, st) == ScanFrom(c, r, p + 1, Step(c, r, st, i))
  {
    var st' := Step(c, r, st, i);
    assert SkipScanFrom(c, r, i, st) == SkipScanFrom(c, r, p + 1, st');
    assert ScanFrom(c, r, i, st) == ScanFrom(c, r, i + 1, st');
    assert st'.high == Max(c[p], c[i]);
    NewLegCovered(c, r, i, p);
    IdleRun(c, r, i + 1, p + 1, st');
  }

  /** One skipping step anywhere else moves on by one index. */
  lemma SkipByOne(c: seq<real>, r: real, i: nat, st: ScanState)
    requires i < |c| && !(c[i] > st.high && Leg(c, r, i).Some?)
    ensures SkipScanFrom(c, r, i, st) == SkipScanFrom(c, r, i + 1, Step(c, r, st, i))
    ensures ScanFrom(c, r, i, st) == ScanFrom(c, r, i + 1, Step(c, r, st, i))
  {
  }

  /** Skipping the closes of a leg gives the same state as scanning them, from any state. */
  lemma {:induction false} SkipIsNoOp(c: seq<real>, r: real, i: nat, st: ScanState)
    ensures SkipScanFrom(c, r, i, st) == ScanFrom(c, r, i, st)
    decreases |c| - i
  {
    if i < |c| {
      if c[i] > st.high && Leg(c, r, i).Some? {
        var p := Leg(c, r, i).value;
        SkipOverLeg(c, r, i, st, p);
        SkipIsNoOp(c, r, p + 1, Step(c, r, st, i));
      } else {
        SkipByOne(c, r, i, st);
        SkipIsNoOp(c, r, i + 1, Step(c, r, st, i));
      }
    }
  }

  /** `find_bt` whose outer loop does skip to the peak: same B and T lists. */
  lemma SkipHarmless(c: seq<real>, r: real)
    requires |c| > 0
    ensures var st := SkipScanFrom(c, r, 1, ScanState(c[0], [], []));
      FindBT(c, r) == Success(Detection(st.bs, st.ts))
  {
    SkipIsNoOp(c, r, 1, ScanState(c[0], [], []));
  }

  /** The `while` that walks from the reaching close to the end of its run. */
  method WalkRun(c: seq<real>, j: nat) returns (peak: nat)
    requires j < |c|
    ensures peak == RunEnd(c, j)
  {
    peak := j;
    while peak + 1 < |c| && c[peak + 1] >= c[peak]
      invariant j <= peak < |c|
      invariant RunEnd(c, peak) == RunEnd(c, j)
    {
      peak := peak + 1;
    }
  }

  /** The inner `for j` loop: the first close reaching the threshold, then its run. */
  method SearchLeg(c: seq<real>, r: real, i: nat) returns (peak: Option<nat>)
    requires i < |c|
    ensures peak == Leg(c, r, i)
  {
    var level := c[i] * (1.0 + r);
    var j := i + 1;
    while j < |c|
      invariant i + 1 <= j <= |c|
      invariant FirstReach(c, level, i + 1) == FirstReach(c, level, j)
    {
      if c[j] >= level {
        assert FirstReach(c, level, j) == Some(j);
        var p := WalkRun(c, j);
        return Some(p);
      }
      j := j + 1;
    }
    assert FirstReach(c, level, j) == None;
    return None;
  }

  /** `find_bt` as written: the outer `for` over the closes after the first. */
  method FindBTLoops(c: seq<real>, r: real) returns (res: Result<Detection, Error>)
    ensures res == FindBT(c, r)
  {
    if |c| == 0 {
      return Failure(EmptySeries);
    }
    var bs: seq<Point> := [];
    var ts: seq<Point> := [];
    var high := c[0];
    var i := 1;
    while i < |c|
      invariant 1 <= i <= |c|
      invariant ScanFrom(c, r, i, ScanState(high, bs, ts)) == ScanFrom(c, r, 1, ScanState(c[0], [], []))
    {
      ghost var before := ScanState(high, bs, ts);
      var price := c[i];
      if price > high {
        bs := bs + [Point(i, price)];
        var leg := SearchLeg(c, r, i);
        if leg.Some? {
          var peak := leg.value;
          LegAfter(c, r, i);
          ts := ts + [Point(peak, c[peak])];
          high := c[peak];
        }
      }
      high := Max(high, price);
      assert ScanState(high, bs, ts) == Step(c, r, before, i);
      i := i + 1;
    }
    return Success(Detection(bs, ts));
  }
}
