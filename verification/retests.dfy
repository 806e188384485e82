/**
 * The retest table (`analyze_retests`, super_analysis.py:63-100).
 *
 * Each T is paired with every B at the same or an earlier list position. The
 * pair is retested when the lowest close from the T's date to the end falls
 * to the B price or below; the first date of that low is the retest date. A
 * retested pair records a target: the first T in the list dated after the
 * retest ("다음T", here `NextPeak`), or else the highest close from the
 * retest date on ("최고가", here `FutureHigh`), with the days from B to that
 * target.
 */
module Retest {
  import opened Wrappers
  import opened Series
  import opened BreakoutPeak

  datatype TargetKind = NextPeak | FutureHigh

  /** One row of the table: target kind, target close, target index and period in days. */
  datatype Record = Record(kind: TargetKind, targetPrice: real, targetAt: nat, period: int)

  /** Day numbers, one per close, strictly increasing: each date occurs once and in order. */
  predicate ValidDays(c: seq<real>, days: seq<int>)
  {
    |days| == |c| && forall k1, k2 :: 0 <= k1 < k2 < |days| ==> days[k1] < days[k2]
  }

  /** The list position of the first T at or after position `from` dated after index `m`. */
  function FirstPeakAfter(ts: seq<Point>, m: nat, from: nat): (n: Option<nat>)
    ensures n.Some? ==> from <= n.value < |ts|
    decreases |ts| - from
  {
    if from >= |ts| then None
    else if ts[from].at > m then Some(from)
    else FirstPeakAfter(ts, m, from + 1)
  }

  /** `FirstPeakAfter` finds the first such T in list order and misses only when there is none. */
  lemma {:induction false} FirstPeakAfterSpec(ts: seq<Point>, m: nat, from: nat)
    ensures var n := FirstPeakAfter(ts, m, from);
      && (n.Some? ==> ts[n.value].at > m && forall k :: from <= k < n.value ==> ts[k].at <= m)
      && (n.None? ==> forall k :: from <= k < |ts| ==> ts[k].at <= m)
    decreases |ts| - from
  {
    if from < |ts| && ts[from].at <= m {
      FirstPeakAfterSpec(ts, m, from + 1);
    }
  }

  /**
   * The record of one (T, B) pair, if it is retested. The retest index is the
   * first index of the lowest close from T on.
   */
  function PairRecord(c: seq<real>, days: seq<int>, ts: seq<Point>, t: Point, b: Point): (rec: Option<Record>)
    requires |days| == |c| && t.at < |c| && b.at < |c| && InSeries(c, ts)
  {
    var m := ArgMinFrom(c, t.at);
    if c[m] > b.price then None
    else match FirstPeakAfter(ts, m, 0)
      case Some(n) =>
        var nt := ts[n].at;
        Some(Record(NextPeak, c[nt], nt, days[nt] - days[b.at]))
      case None =>
        var h := ArgMaxFrom(c, m);
        Some(Record(FutureHigh, c[h], h, days[h] - days[b.at]))
  }

  /** A pair is retested when some close from T's date on falls to B's price or below. */
  predicate Retested(c: seq<real>, t: Point, b: Point)
  {
    exists m :: t.at <= m < |c| && c[m] <= b.price
  }

  /**
   * A pair records a target exactly when it is retested; its target is a
   * close of the series and its period counts the days from B to that target.
   */
  lemma PairRetested(c: seq<real>, days: seq<int>, ts: seq<Point>, t: Point, b: Point)
    requires |days| == |c| && t.at < |c| && b.at < |c| && InSeries(c, ts)
    ensures var rec := PairRecord(c, days, ts, t, b);
      && (rec.Some? <==> Retested(c, t, b))
      && (rec.Some? ==> rec.value.targetAt < |c| && rec.value.targetPrice == c[rec.value.targetAt])
      && (rec.Some? ==> rec.value.period == days[rec.value.targetAt] - days[b.at])
  {
    ArgMinSpec(c, t.at);
  }

  /**
   * Which target a retested pair records. With `m` the retest index: a
   * `NextPeak` target is the first T in the list dated after `m`; a
   * `FutureHigh` target is recorded only when no T is dated after `m`, and is
   * the first index of the highest close from `m` on.
   */
  lemma PairTarget(c: seq<real>, days: seq<int>, ts: seq<Point>, t: Point, b: Point)
    requires |days| == |c| && t.at < |c| && b.at < |c| && InSeries(c, ts)
    ensures var m := ArgMinFrom(c, t.at);
      var rec := PairRecord(c, days, ts, t, b);
      rec.Some? ==>
        && c[m] <= b.price
        && (rec.value.kind == NextPeak <==> exists n :: 0 <= n < |ts| && ts[n].at > m)
        && (rec.value.kind == NextPeak ==>
              exists n :: 0 <= n < |ts| && ts[n].at == rec.value.targetAt && rec.value.targetAt > m
                && forall k :: 0 <= k < n ==> ts[k].at <= m)
        && (rec.value.kind == FutureHigh ==>
              && m <= rec.value.targetAt
              && (forall k :: m <= k < |c| ==> c[k] <= rec.value.targetPrice)
              && (forall k :: m <= k < rec.value.targetAt ==> c[k] < rec.value.targetPrice))
  {
    var m := ArgMinFrom(c, t.at);
    FirstPeakAfterSpec(ts, m, 0);
    ArgMaxSpec(c, m);
  }

  /** The present values among `f(0), ..., f(n - 1)`, in that order. */
  function Collect<T>(n: nat, f: nat -> Option<T>): (xs: seq<T>)
    ensures |xs| <= n
  {
    if n == 0 then []
    else Collect(n - 1, f) + match f(n - 1)
      case None => []
      case Some(x) => [x]
  }

  /** The lists `g(0), ..., g(n - 1)` one after the other. */
  function Flatten<T>(n: nat, g: nat -> seq<T>): seq<T>
  {
    if n == 0 then [] else Flatten(n - 1, g) + g(n - 1)
  }

  /** Every collected value is `f(q)` for some q < n. */
  lemma {:induction false} CollectSource<T>(n: nat, f: nat -> Option<T>, x: T) returns (q: nat)
    requires x in Collect(n, f)
    ensures q < n && f(q) == Some(x)
  {
    if x in Collect(n - 1, f) {
      q := CollectSource(n - 1, f, x);
    } else {
      q := n - 1;
    }
  }

  /** Every present `f(q)` with q < n is collected. */
  lemma {:induction false} CollectHolds<T>(n: nat, f: nat -> Option<T>, q: nat, x: T)
    requires q < n && f(q) == Some(x)
    ensures x in Collect(n, f)
  {
    if q < n - 1 {
      CollectHolds(n - 1, f, q, x);
    }
  }

  /** Every value of the flattened list is in some `g(k)` with k < n. */
  lemma {:induction false} FlattenSource<T>(n: nat, g: nat -> seq<T>, x: T) returns (k: nat)
    requires x in Flatten(n, g)
    ensures k < n && x in g(k)
  {
    if x in Flatten(n - 1, g) {
      k := FlattenSource(n - 1, g, x);
    } else {
      k := n - 1;
    }
  }

  /** Every value of a `g(k)` with k < n is in the flattened list. */
  lemma {:induction false} FlattenHolds<T>(n: nat, g: nat -> seq<T>, k: nat, x: T)
    requires k < n && x in g(k)
    ensures x in Flatten(n, g)
  {
    if k < n - 1 {
      FlattenHolds(n - 1, g, k, x);
    }
  }

  /** The number of present values among `f(0), ..., f(n - 1)`. */
  function CountSome<T>(n: nat, f: nat -> Option<T>): nat
  {
    if n == 0 then 0 else CountSome(n - 1, f) + if f(n - 1).Some? then 1 else 0
  }

  /** Counting present values over a longer prefix never gives fewer. */
  lemma {:induction false} CountSomeGrows<T>(a: nat, b: nat, f: nat -> Option<T>)
    requires a <= b
    ensures CountSome(a, f) <= CountSome(b, f)
    decreases b - a
  {
    if a < b {
      CountSomeGrows(a + 1, b, f);
    }
  }

  /** A present `f(q)` counts: more values are present below any bound past q than below q. */
  lemma CountSomePast<T>(q: nat, n: nat, f: nat -> Option<T>)
    requires q < n && f(q).Some?
    ensures CountSome(q, f) < CountSome(n, f)
  {
    CountSomeGrows(q + 1, n, f);
  }

  /** `Collect` drops nothing: it holds one value per present `f(q)`. */
  lemma {:induction false} CollectCount<T>(n: nat, f: nat -> Option<T>)
    ensures |Collect(n, f)| == CountSome(n, f)
  {
    if n > 0 {
      CollectCount(n - 1, f);
    }
  }

  /** A present `f(q)` sits in the collected list after exactly the present values before q. */
  lemma {:induction false} CollectSlot<T>(n: nat, f: nat -> Option<T>, q: nat)
    requires q < n && f(q).Some?
    ensures CountSome(q, f) < |Collect(n, f)| && Collect(n, f)[CountSome(q, f)] == f(q).value
  {
    if q == n - 1 {
      CollectCount(n - 1, f);
    } else {
      CollectSlot(n - 1, f, q);
    }
  }

  /** The last collected value is `f(q)` for a q after which nothing more is present. */
  lemma {:induction false} CollectLast<T>(n: nat, f: nat -> Option<T>) returns (q: nat)
    requires |Collect(n, f)| > 0
    ensures q < n && f(q) == Some(Collect(n, f)[|Collect(n, f)| - 1])
    ensures forall q': nat :: q < q' < n ==> f(q').None?
  {
    if f(n - 1).Some? {
      q := n - 1;
    } else {
      q := CollectLast(n - 1, f);
    }
  }

  /** Nothing is collected only when nothing is present. */
  lemma {:induction false} CollectEmpty<T>(n: nat, f: nat -> Option<T>)
    requires |Collect(n, f)| == 0
    ensures forall q: nat :: q < n ==> f(q).None?
  {
    if n > 0 {
      CollectEmpty(n - 1, f);
    }
  }

  /** The j-th value of `g(k)` sits in the flattened list after all the values of `g(0), ..., g(k - 1)`. */
  lemma {:induction false} FlattenSlot<T>(n: nat, g: nat -> seq<T>, k: nat, j: nat)
    requires k < n && j < |g(k)|
    ensures |Flatten(k, g)| + j < |Flatten(n, g)| && Flatten(n, g)[|Flatten(k, g)| + j] == g(k)[j]
  {
    if k < n - 1 {
      FlattenSlot(n - 1, g, k, j);
    }
  }

  /** The last flattened value is the last of a non-empty `g(k)` after which every list is empty. */
  lemma {:induction false} FlattenLast<T>(n: nat, g: nat -> seq<T>) returns (k: nat)
    requires |Flatten(n, g)| > 0
    ensures k < n && |g(k)| > 0 && Flatten(n, g)[|Flatten(n, g)| - 1] == g(k)[|g(k)| - 1]
    ensures forall k': nat :: k < k' < n ==> |g(k')| == 0
  {
    if |g(n - 1)| > 0 {
      k := n - 1;
    } else {
      k := FlattenLast(n - 1, g);
    }
  }

  /** The record of T `t` with the breakout at each list position. */
  function PairCells(c: seq<real>, days: seq<int>, bs: seq<Point>, ts: seq<Point>, t: Point): nat -> Option<Record>
    requires |days| == |c| && t.at < |c| && InSeries(c, bs) && InSeries(c, ts)
  {
    (q: nat) => if q < |bs| then PairRecord(c, days, ts, t, bs[q]) else None
  }

  /** The records of T `t` paired with the first `n` breakouts, in breakout order. */
  function PairsWith(c: seq<real>, days: seq<int>, bs: seq<Point>, ts: seq<Point>, t: Point, n: nat): seq<Record>
    requires |days| == |c| && t.at < |c| && InSeries(c, bs) && InSeries(c, ts) && n <= |bs|
  {
    Collect(n, PairCells(c, days, bs, ts, t))
  }

  /** The records of the T at each list position, paired with the breakouts up to that position. */
  function PeakRows(c: seq<real>, days: seq<int>, bs: seq<Point>, ts: seq<Point>): nat -> seq<Record>
    requires |days| == |c| && InSeries(c, bs) && InSeries(c, ts)
  {
    (k: nat) => if k < |ts| && k < |bs| then PairsWith(c, days, bs, ts, ts[k], k + 1) else []
  }

  /** The table for the first `n` T points: T in list order, each with breakouts 0..its position. */
  function Table(c: seq<real>, days: seq<int>, bs: seq<Point>, ts: seq<Point>, n: nat): seq<Record>
    requires |days| == |c| && InSeries(c, bs) && InSeries(c, ts) && n <= |ts| && n <= |bs|
  {
    Flatten(n, PeakRows(c, days, bs, ts))
  }

  /**
   * `analyze_retests(df, b_points, t_points)`. Reading `b_points[b_idx]` with
   * `b_idx` up to a T's list position fails when there are more T than B points.
   */
  function AnalyzeRetests(c: seq<real>, days: seq<int>, bs: seq<Point>, ts: seq<Point>): (res: Result<seq<Record>, Error>)
    requires |days| == |c| && InSeries(c, bs) && InSeries(c, ts)
    ensures res.Failure? <==> |ts| > |bs|
    ensures |ts| == 0 ==> res == Success([])
  {
    if |ts| > |bs| then Failure(MissingBreakout)
    else Success(Table(c, days, bs, ts, |ts|))
  }

  /** `analyze_retests` as written: T positions outside, breakout positions up to each inside. */
  method AnalyzeRetestsLoops(c: seq<real>, days: seq<int>, bs: seq<Point>, ts: seq<Point>) returns (res: Result<seq<Record>, Error>)
    requires |days| == |c| && InSeries(c, bs) && InSeries(c, ts)
    ensures res == AnalyzeRetests(c, days, bs, ts)
  {
    var rows: seq<Record> := [];
    var k := 0;
    while k < |ts|
      invariant k <= |ts| && k <= |bs|
      invariant rows == Table(c, days, bs, ts, k)
    {
      var q := 0;
      while q <= k
        invariant q <= k + 1 && q <= |bs|
        invariant rows == Table(c, days, bs, ts, k) + PairsWith(c, days, bs, ts, ts[k], q)
      {
        if q >= |bs| {
          return Failure(MissingBreakout);
        }
        assert PairCells(c, days, bs, ts, ts[k])(q) == PairRecord(c, days, ts, ts[k], bs[q]);
        match PairRecord(c, days, ts, ts[k], bs[q]) {
          case Some(rec) => rows := rows + [rec];
          case None =>
        }
        q := q + 1;
      }
      assert PeakRows(c, days, bs, ts)(k) == PairsWith(c, days, bs, ts, ts[k], k + 1);
      k := k + 1;
    }
    return Success(rows);
  }

  /** The pair (k, q) yields `rec`: T at position k with B at position q is retested and records `rec`. */
  predicate Yields(c: seq<real>, days: seq<int>, bs: seq<Point>, ts: seq<Point>, k: nat, q: nat, rec: Record)
    requires |days| == |c| && InSeries(c, bs) && InSeries(c, ts) && k < |ts| && q < |bs|
  {
    PairRecord(c, days, ts, ts[k], bs[q]) == Some(rec)
  }

  /**
   * A record is in the table of the first `n` T points exactly when it is the
   * record of a retested pair of a T at position k < n with a B at position q <= k.
   */
  lemma TableMembers(c: seq<real>, days: seq<int>, bs: seq<Point>, ts: seq<Point>, n: nat, rec: Record)
    requires |days| == |c| && InSeries(c, bs) && InSeries(c, ts) && n <= |ts| && n <= |bs|
    ensures rec in Table(c, days, bs, ts, n) <==>
      exists k, q :: 0 <= q <= k < n && Yields(c, days, bs, ts, k, q, rec)
  {
    if rec in Table(c, days, bs, ts, n) {
      var k, q := TableSources(c, days, bs, ts, n, rec);
    }
    if exists k, q :: 0 <= q <= k < n && Yields(c, days, bs, ts, k, q, rec) {
      var k, q :| 0 <= q <= k < n && Yields(c, days, bs, ts, k, q, rec);
      TableHolds(c, days, bs, ts, n, k, q, rec);
    }
  }

  /** Every record in the table comes from a retested pair: the T at position k with the B at position q. */
  lemma TableSources(c: seq<real>, days: seq<int>, bs: seq<Point>, ts: seq<Point>, n: nat, rec: Record)
    returns (k: nat, q: nat)
    requires |days| == |c| && InSeries(c, bs) && InSeries(c, ts) && n <= |ts| && n <= |bs|
    requires rec in Table(c, days, bs, ts, n)
    ensures q <= k < n && Yields(c, days, bs, ts, k, q, rec)
  {
    k := FlattenSource(n, PeakRows(c, days, bs, ts), rec);
    q := CollectSource(k + 1, PairCells(c, days, bs, ts, ts[k]), rec);
  }

  /** The record of every retested pair is in the table. */
  lemma TableHolds(c: seq<real>, days: seq<int>, bs: seq<Point>, ts: seq<Point>, n: nat, k: nat, q: nat, rec: Record)
    requires |days| == |c| && InSeries(c, bs) && InSeries(c, ts) && n <= |ts| && n <= |bs|
    requires q <= k < n && Yields(c, days, bs, ts, k, q, rec)
    ensures rec in Table(c, days, bs, ts, n)
  {
    CollectHolds(k + 1, PairCells(c, days, bs, ts, ts[k]), q, rec);
    FlattenHolds(n, PeakRows(c, days, bs, ts), k, rec);
  }

  /** How many of the breakouts at positions below `q` the T at position k is retested against. */
  function RetestCount(c: seq<real>, days: seq<int>, bs: seq<Point>, ts: seq<Point>, k: nat, q: nat): nat
    requires |days| == |c| && InSeries(c, bs) && InSeries(c, ts) && k < |ts| && q <= |bs|
  {
    CountSome(q, PairCells(c, days, bs, ts, ts[k]))
  }

  /** How many retested pairs the T points at positions below `k` make, each with the breakouts up to its position. */
  function PairsBefore(c: seq<real>, days: seq<int>, bs: seq<Point>, ts: seq<Point>, k: nat): nat
    requires |days| == |c| && InSeries(c, bs) && InSeries(c, ts) && k <= |ts| && k <= |bs|
  {
    if k == 0 then 0 else PairsBefore(c, days, bs, ts, k - 1) + RetestCount(c, days, bs, ts, k - 1, k)
  }

  /** The number of retested pairs before pair (k, q) in the loops' order. */
  function Slot(c: seq<real>, days: seq<int>, bs: seq<Point>, ts: seq<Point>, k: nat, q: nat): nat
    requires |days| == |c| && InSeries(c, bs) && InSeries(c, ts) && q <= k < |ts| && k < |bs|
  {
    PairsBefore(c, days, bs, ts, k) + RetestCount(c, days, bs, ts, k, q)
  }

  /** The table of the first `n` T points holds one record per retested pair, and no more. */
  lemma {:induction false} TableSize(c: seq<real>, days: seq<int>, bs: seq<Point>, ts: seq<Point>, n: nat)
    requires |days| == |c| && InSeries(c, bs) && InSeries(c, ts) && n <= |ts| && n <= |bs|
    ensures |Table(c, days, bs, ts, n)| == PairsBefore(c, days, bs, ts, n)
  {
    if n > 0 {
      TableSize(c, days, bs, ts, n - 1);
      CollectCount(n, PairCells(c, days, bs, ts, ts[n - 1]));
    }
  }

  /** The record of a retested pair sits in the table at its slot: after every retested pair before it in loop order. */
  lemma TableSlot(c: seq<real>, days: seq<int>, bs: seq<Point>, ts: seq<Point>, n: nat, k: nat, q: nat, rec: Record)
    requires |days| == |c| && InSeries(c, bs) && InSeries(c, ts) && n <= |ts| && n <= |bs|
    requires q <= k < n && Yields(c, days, bs, ts, k, q, rec)
    ensures Slot(c, days, bs, ts, k, q) < |Table(c, days, bs, ts, n)|
    ensures Table(c, days, bs, ts, n)[Slot(c, days, bs, ts, k, q)] == rec
  {
    var f := PairCells(c, days, bs, ts, ts[k]);
    assert f(q) == Some(rec);
    CollectSlot(k + 1, f, q);
    assert PeakRows(c, days, bs, ts)(k) == Collect(k + 1, f);
    FlattenSlot(n, PeakRows(c, days, bs, ts), k, CountSome(q, f));
    TableSize(c, days, bs, ts, k);
  }

  /** Retested pairs before all of T position k's pairs number at least as many as before any earlier position's. */
  lemma {:induction false} PairsBeforeGrows(c: seq<real>, days: seq<int>, bs: seq<Point>, ts: seq<Point>, a: nat, b: nat)
    requires |days| == |c| && InSeries(c, bs) && InSeries(c, ts) && a <= b <= |ts| && b <= |bs|
    ensures PairsBefore(c, days, bs, ts, a) <= PairsBefore(c, days, bs, ts, b)
    decreases b - a
  {
    if a < b {
      PairsBeforeGrows(c, days, bs, ts, a + 1, b);
    }
  }

  /**
   * Slots follow the loops' order: a retested pair's slot is below the slot of
   * every pair after it, so distinct retested pairs have distinct places.
   */
  lemma SlotsInLoopOrder(c: seq<real>, days: seq<int>, bs: seq<Point>, ts: seq<Point>, k: nat, q: nat, k': nat, q': nat)
    requires |days| == |c| && InSeries(c, bs) && InSeries(c, ts) && |ts| <= |bs|
    requires q <= k < |ts| && q' <= k' < |ts| && PairRecord(c, days, ts, ts[k], bs[q]).Some?
    requires k < k' || (k == k' && q < q')
    ensures Slot(c, days, bs, ts, k, q) < Slot(c, days, bs, ts, k', q')
  {
    var f := PairCells(c, days, bs, ts, ts[k]);
    assert f(q).Some?;
    if k == k' {
      CountSomePast(q, q', f);
    } else {
      CountSomePast(q, k + 1, f);
      PairsBeforeGrows(c, days, bs, ts, k + 1, k');
    }
  }

  /** No pair of a T whose row of the table is empty is retested. */
  lemma EmptyRowsUnretested(c: seq<real>, days: seq<int>, bs: seq<Point>, ts: seq<Point>, n: nat, k: nat)
    requires |days| == |c| && InSeries(c, bs) && InSeries(c, ts) && n <= |ts| && n <= |bs|
    requires forall k': nat :: k < k' < n ==> |PeakRows(c, days, bs, ts)(k')| == 0
    ensures forall k': nat, q': nat :: q' <= k' < n && k < k' ==> PairRecord(c, days, ts, ts[k'], bs[q']).None?
  {
    forall k': nat, q': nat | q' <= k' < n && k < k'
      ensures PairRecord(c, days, ts, ts[k'], bs[q']).None?
    {
      var f' := PairCells(c, days, bs, ts, ts[k']);
      assert f'(q') == PairRecord(c, days, ts, ts[k'], bs[q']);
      assert PeakRows(c, days, bs, ts)(k') == Collect(k' + 1, f');
      CollectEmpty(k' + 1, f');
    }
  }

  /**
   * The last record of a non-empty table (the row `analyze_target` reads) is
   * the record of the last retested pair in loop order: every pair after it
   * is not retested.
   */
  lemma TableLast(c: seq<real>, days: seq<int>, bs: seq<Point>, ts: seq<Point>, n: nat) returns (k: nat, q: nat)
    requires |days| == |c| && InSeries(c, bs) && InSeries(c, ts) && n <= |ts| && n <= |bs|
    requires |Table(c, days, bs, ts, n)| > 0
    ensures var table := Table(c, days, bs, ts, n);
      && q <= k < n && Yields(c, days, bs, ts, k, q, table[|table| - 1])
      && forall k': nat, q': nat :: q' <= k' < n && (k < k' || (k == k' && q < q')) ==> PairRecord(c, days, ts, ts[k'], bs[q']).None?
  {
    var g := PeakRows(c, days, bs, ts);
    k := FlattenLast(n, g);
    var f := PairCells(c, days, bs, ts, ts[k]);
    assert g(k) == Collect(k + 1, f);
    q := CollectLast(k + 1, f);
    EmptyRowsUnretested(c, days, bs, ts, n, k);
    forall q': nat | q < q' <= k
      ensures PairRecord(c, days, ts, ts[k], bs[q']).None?
    {
      assert f(q') == PairRecord(c, days, ts, ts[k], bs[q']);
    }
  }

  /**
   * When B lies before T and the dates increase, a retested pair's target
   * lies on or after T and its period is positive.
   */
  lemma PairPeriod(c: seq<real>, days: seq<int>, ts: seq<Point>, t: Point, b: Point)
    requires ValidDays(c, days) && b.at < t.at < |c| && InSeries(c, ts)
    ensures var rec := PairRecord(c, days, ts, t, b);
      rec.Some? ==> t.at <= rec.value.targetAt < |c| && rec.value.period > 0
  {
    var rec := PairRecord(c, days, ts, t, b);
    if rec.Some? {
      PairRetested(c, days, ts, t, b);
      PairTarget(c, days, ts, t, b);
      assert days[b.at] < days[rec.value.targetAt];
    }
  }

  /** With the T points in date order, a `NextPeak` target is the earliest T after the retest. */
  lemma NextPeakIsEarliest(c: seq<real>, days: seq<int>, ts: seq<Point>, t: Point, b: Point)
    requires |days| == |c| && t.at < |c| && b.at < |c| && InSeries(c, ts) && Ordered(ts)
    ensures var rec := PairRecord(c, days, ts, t, b);
      rec.Some? && rec.value.kind == NextPeak ==>
        forall n :: 0 <= n < |ts| && ts[n].at > ArgMinFrom(c, t.at) ==> rec.value.targetAt <= ts[n].at
  {
    PairTarget(c, days, ts, t, b);
  }

  /**
   * On the lists `find_bt` returns, the retest table is always built (there
   * are never more T than B points), and with increasing dates every record
   * has a positive period.
   */
  lemma RetestsOfScan(c: seq<real>, days: seq<int>, r: real)
    requires |c| > 0 && ValidDays(c, days)
    ensures var d := FindBT(c, r).value;
      InSeries(c, d.breakouts) && InSeries(c, d.peaks)
    ensures var d := FindBT(c, r).value;
      var res := AnalyzeRetests(c, days, d.breakouts, d.peaks);
      && res.Success?
      && forall rec :: rec in res.value ==> rec.period > 0
  {
    PeaksHaveTriggers(c, r);
    var d := FindBT(c, r).value;
    var bs, ts := d.breakouts, d.peaks;
    assert InSeries(c, ts);
    var table := Table(c, days, bs, ts, |ts|);
    forall rec | rec in table
      ensures rec.period > 0
    {
      TableMembers(c, days, bs, ts, |ts|, rec);
      var k, q :| 0 <= q <= k < |ts| && Yields(c, days, bs, ts, k, q, rec);
      PairPeriod(c, days, ts, ts[k], bs[q]);
    }
  }
}
