# Breakout / retest price-pattern analyser, modelled in Dafny

This project models the analyser in `super_analysis.py`. The analyser takes one instrument's ordered daily closes and runs three stages:

1. `find_bt` scans the closes once and finds breakouts (B) and the peaks (T) of the up-legs they start.
2. `analyze_retests` pairs every T with each B at its list position or earlier. It records a target whenever the price later falls back to the B level (a "retest").
3. `analyze_target` turns the last record into one projection: a target price, an expected return, a period in days and a target date.

Representation:

- The closes are a `seq<real>`.
- The dates are a parallel `seq<int>` of day numbers. The pipeline lemmas assume the day numbers are strictly increasing (`Retest.ValidDays`).
- A date is represented by its index into the series.
- A B or T point is `Point(at, price)`.
- Python's `int()` is `Series.Trunc`, which truncates toward zero.
- The pandas `idxmin`/`idxmax` tie-break, which picks the first occurrence, is `Series.ArgMinFrom`/`Series.ArgMaxFrom`.

Modules:

- `Wrappers` (`wrappers.dfy`): `Option`, `Result` and the error cases.
- `Series` (`series.dfy`): the arg-min and arg-max over a suffix, the first close that reaches a level, and the end of a non-decreasing run.
- `BreakoutPeak` (`find_bt.dfy`): the scan.
  - `Step` and `ScanFrom` are the functional form of the scan.
  - `FindBTLoops` keeps the nested loops of `find_bt`.
  - `SkipScanFrom` is the scan as it would run if `i = peak_idx` moved the loop on.
- `Retest` (`retests.dfy`): the pair records and the table.
  - `AnalyzeRetestsLoops` keeps the two nested loops.
- `Target` (`target.dfy`): the volatility fallback, the mean period, the expected return and `AnalyzeTarget`.

Points where the code behaves differently from what a reader might expect; the model follows the code:

- **No normaliser.** There is no series normaliser. `종가보정` is a copy of `종가` (super_analysis.py:26), so the closes are analysed as they are.
- **The skip-ahead does nothing.** `i = peak_idx` (super_analysis.py:53) has no effect inside a Python `for`, so the scan always goes on at the next index. `BreakoutPeak.SkipHarmless` proves that skipping to the peak would give the same B and T lists for every input.
- **Which records trigger the fallback.** An empty retest table makes `analyze_target` return `None`. The volatility fallback runs only when the last record is a `FutureHigh` ("최고가") record.
- **How the fallback rounds and averages.**
  - The fallback truncates with `int()` rather than rounding.
  - Its period is the truncated mean of all recorded periods.
  - The default of 30 days can never be used, because the table is non-empty at that point.
- **An empty frame raises.** An empty frame makes `find_bt` raise on `closes[0]`. This is modelled as `Failure(EmptySeries)`.
- **A negative threshold is accepted.** A negative `rise_threshold` is not rejected: any real threshold is accepted.

A note on the source: the correction at super_analysis.py:128-130 is meant to make the target always higher than the current close. It only guarantees that from a close of 10 upward. `Target.FallbackTiesBelowTen` shows that at a close of 5 both truncations give 5. Closes in this market are far above 10, so the model keeps the code as written.

## Model

| member | source | states |
|---|---|---|
| `Series.Trunc` | super_analysis.py:126-130 | `int()` of a real: the floor for non-negative values and the ceiling for negative ones, within one unit of the value |
| `Series.ArgMinSpec` | super_analysis.py:73-76 | the retest index is a minimum of the closes from T on, and the first index that attains it |
| `Series.ArgMaxSpec` | super_analysis.py:90-91 | the future-high index is a maximum of the closes from the retest on, and the first index that attains it |
| `Series.FirstReachSpec` | super_analysis.py:44-46 | the threshold search returns the first close at or above the level; it finds nothing only when every later close is below the level |
| `Series.RunEndSpec` | super_analysis.py:47-49 | the peak walk stops at the last index or where the next close is strictly lower, and the closes it walks over never decrease |
| `BreakoutPeak.LegFacts` | super_analysis.py:44-51 | a breakout has a leg iff some later close reaches `B * (1 + r)`; the peak follows the first reaching close j, reaches the threshold, ends a run that is non-decreasing from j, and is the highest close after B up to the peak |
| `BreakoutPeak.FindBT` | super_analysis.py:32-37 | the scan fails exactly on an empty series, where `closes[0]` cannot be read |
| `BreakoutPeak.FinalInv` | super_analysis.py:37-56 | the loop invariant holds at the end: the running high covers every close, breakouts are record highs, each T comes from a B's leg, and no leg reaches past the last T |
| `BreakoutPeak.BreakoutsAreRecordHighs` | super_analysis.py:37-43 | every B is a close strictly above all earlier closes, so B indices and B prices strictly increase in list order |
| `BreakoutPeak.BreakoutsComplete` | super_analysis.py:37-56 | the B list is complete: a close after the first is a B iff it is above every earlier close and no earlier B's leg runs from before it up to or past it |
| `BreakoutPeak.PeaksHaveTriggers` | super_analysis.py:39-54 | there are never more T than B points; each T is the leg peak of a B at its list position or later and ends a run; every B at or before a T's position lies before that T |
| `BreakoutPeak.TriggerFacts` | super_analysis.py:45-51 | a T lies after its triggering B, reaches `B * (1 + r)`, and stops at the last index or before a lower close |
| `BreakoutPeak.PeaksStrictlyOrdered` | super_analysis.py:41-56 | T indices strictly increase; the B after one whose leg found a peak lies beyond that peak; with `r >= 0` and a non-negative first close, T prices strictly increase |
| `BreakoutPeak.SkipIsNoOp` | super_analysis.py:38-56 | from any index and state, skipping the closes of each leg gives the same final state as scanning them one by one |
| `BreakoutPeak.SkipHarmless` | super_analysis.py:53 | `find_bt` with a real jump to the peak would return the same B and T lists |
| `BreakoutPeak.WalkRun` | super_analysis.py:47-49 | the `while` loop ends at the end of the non-decreasing run |
| `BreakoutPeak.SearchLeg` | super_analysis.py:44-54 | the inner `for` with its `break` finds the leg's peak, or none when no later close reaches the threshold |
| `BreakoutPeak.FindBTLoops` | super_analysis.py:32-58 | the loops of `find_bt` compute the same B and T lists as the scan |
| `Retest.FirstPeakAfterSpec` | super_analysis.py:77-81 | the next T is the first one in list order dated after the retest; there is none only when every T is dated at or before it |
| `Retest.PairRetested` | super_analysis.py:73-98 | a pair emits a record iff some close from T's date on is at or below the B price; the target is a close of the series and the period is the day difference from B to the target |
| `Retest.PairTarget` | super_analysis.py:75-98 | a record is `NextPeak` iff some T is dated after the retest; that target is the first such T in list order; otherwise the target is the first highest close from the retest on |
| `Retest.NextPeakIsEarliest` | super_analysis.py:77-81 | with T points in date order, a `NextPeak` target is the earliest T after the retest date |
| `Retest.PairPeriod` | super_analysis.py:82-92 | when B lies before T and the dates increase, the target lies on or after T and the period is positive |
| `Retest.AnalyzeRetests` | super_analysis.py:63-100 | the table fails iff there are more T than B points (`b_points[b_idx]` out of range); an empty T list gives an empty table |
| `Retest.AnalyzeRetestsLoops` | super_analysis.py:63-100 | the nested loops build the same table, or fail at the same out-of-range breakout read |
| `Retest.TableMembers` | super_analysis.py:70-98 | a record is in the table iff it is the record of a retested pair made of the T at position k and the B at position q, with q <= k |
| `Retest.TableSize` | super_analysis.py:70-98 | the table holds exactly one record per retested pair, so its length is the number of retested pairs |
| `Retest.TableSlot` | super_analysis.py:70-98 | the record of each retested pair sits at its slot, the number of retested pairs before it in loop order (T position first, then B position) |
| `Retest.SlotsInLoopOrder` | super_analysis.py:70-71 | slots rise strictly in loop order, so the records appear in the order the loops visit their pairs |
| `Retest.TableLast` | super_analysis.py:70-98 | the last record of a non-empty table is the record of the last retested pair in loop order, and no pair after it is retested |
| `Retest.RetestsOfScan` | super_analysis.py:70-98 | on the lists `find_bt` returns, the table is always built, and with increasing dates every record has a positive period |
| `Target.VolatilitySpan` | super_analysis.py:121-123 | the window is the last `min(n, 60)` closes and the volatility is never negative; with a positive low it is `(high - low) / low` over that window's lowest and highest close, otherwise 0.2 |
| `Target.Growth` | super_analysis.py:125 | the growth is at least 10 % and at least the volatility |
| `Target.FallbackPrice` | super_analysis.py:126-130 | with a positive close and growth of at least 10 %, the target is at least the floor of 110 % of the close, and above the close from 10 on |
| `Target.FallbackTiesBelowTen` | super_analysis.py:128-130 | at a close of 5 with 10 % growth the corrected target is still 5 |
| `Target.MeanBounds` | super_analysis.py:132 | the truncated mean period lies between any lower and upper bound of the recorded periods |
| `Target.ExpectedReturn` | super_analysis.py:137 | there is no finite return at a zero close; otherwise the return grows the close back into the target, and over a positive close it is positive or zero exactly when the target is above or equal to the close |
| `Target.AnalyzeTarget` | super_analysis.py:105-111 | `analyze_target` fails exactly on an empty series |
| `Target.NoneIffNoRetest` | super_analysis.py:106-111 | on a non-empty series the result is `None` iff no T is retested against any B at or before its position |
| `Target.ProjectSpec` | super_analysis.py:113-137 | a `NextPeak` last record gives its target price and period unchanged; a `FutureHigh` last record gives a whole-number target that is at least the floor of 110 % of a positive close and above a close of 10 or more, with a period between the shortest and longest recorded period; the target day is today plus the period, and the expected return is the target's return over the last close |
| `Target.ProjectAhead` | super_analysis.py:113-135 | when every recorded period is positive, the projection's period is at least one day and its target day is after today |
| `Target.ProjectionInFuture` | super_analysis.py:105-135 | with increasing dates every projection has a period of at least one day and a target date after today |

## Left out

- `load_symbols` and `load_prices` (super_analysis.py:10-27) are left out: they are SQLite I/O.
- The Streamlit pages and the Supabase client in the other files are left out: they are the UI and storage around the analyser.
- The wall clock is not modelled. `pd.Timestamp.today()` becomes the `today` parameter, a day number. The target date is `today + period`.
- `round(..., 1)` on the expected return is left out; the return is the exact real ratio.
- Floating point is not modelled. Closes, `1 + growth`, `1.1` and the mean are exact reals; only the `int()` truncations are modelled.
- A zero current close makes numpy produce inf or nan. The model gives `None` for that expected return.
- pandas label slicing `closes.loc[str(date):]` is modelled as the suffix of the series from the date's index. This relies on unique, ascending dates. Points handed to `analyze_retests` must be dates of the same frame, so a T date missing from the frame is not modelled.
- The default period of 30 days at super_analysis.py:132 is not modelled: it cannot be reached, because the table is non-empty there.
- The `analyze_retests` output is a list of records. The model does not use a DataFrame, and the column names are the fields of `Retest.Record`.
- Normalising the series for split-like jumps is not modelled, because the code has no normaliser.
- Rejecting a negative `rise_threshold` is not modelled, because the code does not do it.
- `BreakoutPeak.PeaksStrictlyOrdered`: T prices are proved to rise only for a non-negative threshold and a non-negative first close. Those are the conditions under which the source's argument holds.
