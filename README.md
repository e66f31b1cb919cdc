# Hot-water plant fault rules

This project models `faults/__init__.py`, a set of fourteen fault-detection
rules for a hot-water boiler plant. Each rule is a class configured with
column names and thresholds. Its `apply(df)` takes a table of plant
telemetry and returns it with an integer flag column `fcN_flag`.

- **Tables** (`tables.dfy`). A table is a time index in integer seconds
  plus named columns. A column is int-, float- or bool-typed, and a
  float cell may be missing (NaN). The class `DataFrame` is the caller's
  table as `apply` changes it in place: `df[name] = ...` and
  `del df[name]`.
- **Column checks** (`helper_utils.dfy`, `validation.dfy`). These are the
  `for col in [...]` loops at the head of each `apply`, with the
  `HelperUtils` messages they raise.
- **Threshold rules fc1–fc11** (`expressions.dfy`, `threshold.dfy`,
  `rules.dfy`). Each rule is a plan: the checks it runs, the helper
  columns it assigns in order, and the flag it writes. One engine
  interprets every plan, as a function (`ThresholdRules.Evaluate`) and as
  an in-place method on a `DataFrame` (`ThresholdRules.Apply`). For each
  rule a lemma states in plant terms when its flag is 1 in a row.
- **Cycling rules fc12–fc14** (`cycling.dfy`, `rules.dfy`). Each rule:
  - derives on/off or stage-change columns;
  - casts the whole table to int;
  - resamples it into hourly buckets;
  - counts rising edges `x.eq(1) & x.shift().ne(1)` per bucket and per column;
  - flags the hours in which some column's count exceeds the configured
    maximum.

  The edge counter is a loop proved against a recursive specification.
  The resample is a stable sort by time followed by bucketing.
- **Findings** (`findings.dfy`). Four rules as written next to their
  corrected form.

Behaviour of the code that the model keeps, because it is easy to
expect otherwise:

- **Header-mismatch rules with zero flow.** A zero flow gives
  `0 * t / 0`, which is NaN. The comparison with NaN is False, so the
  row's flag is 0, and nothing is raised.
- **Cycling rules and helper columns.** `df` is rebound by
  `astype(int)` before the `del` statements run. The `del` statements
  therefore remove the helpers only from the hourly table that `apply`
  returns, and the caller's table keeps the helper columns.
- **Failed checks.** A missing column raises KeyError. A column of the
  wrong dtype raises TypeError with the type message. A column whose
  maximum is out of range raises TypeError with the range message.
- **Rules that never write their own flag.**
  - fc1 always raises AttributeError.
  - fc6 always raises. When its status check fails, it raises that
    check's fault. When the check passes, it raises KeyError if the
    supply column is missing, and otherwise TypeError from comparing the
    supply temperature with a string.
  - fc9 does not raise. It writes `fc11_flag`, never `fc9_flag`.
  - fc14 raises on the cast for every nonempty table that passes its
    stage-column check.

  The Findings section gives the details.

## Model

| member | source | states |
|---|---|---|
| Tables.DataFrame.constructor | faults/__init__.py:54 | the table handed to `apply` is the caller's table, unchanged |
| Tables.DataFrame.SetItem | faults/__init__.py:66-72 | `df[name] = col` adds or replaces exactly that column; the index and all other columns are unchanged |
| Tables.DataFrame.DelItems | faults/__init__.py:77-79 | `del df[name]` for each listed helper removes exactly those columns |
| HelperUtils.MessageIdentifiesFailure | faults/__init__.py:6-20 | the four message builders are injective together: the message determines both the failed check and the column |
| HelperUtils.IsLessThanOnePointOne | faults/__init__.py:29-35 | the result is True exactly when the number is at most 1.0, and never False (None above 1.0) |
| Validation.MaxOfExceeds | faults/__init__.py:63-64 | `df[col].max() > bound` holds exactly when some present value exceeds the bound; NaNs are skipped, and an empty or all-NaN column passes |
| Validation.CheckAll | faults/__init__.py:56-64 | the check loop raises nothing exactly when every single check passes; otherwise it raises the fault of a failing check, and every check before that one passed |
| Validation.BinaryStatusVerdict | faults/__init__.py:101-109 | a status column passes exactly when it is int-typed with no value above 1 (negatives pass); a non-int column raises the int message, a value above 1 the range message, a missing column KeyError |
| Validation.PercentageVerdict | faults/__init__.py:256-264 | a command column passes exactly when it is float-typed with no present value above 1.0; other dtypes raise the float message, a value above 1.0 the range message, a missing column KeyError |
| Validation.IntegerTypedVerdict | faults/__init__.py:698-702 | the stage column passes exactly when it is int-typed, with no bound on its values |
| Expressions.FirstAbsent | faults/__init__.py:66-67 | the KeyError names a column the table lacks, and none is raised exactly when every column read is present |
| Expressions.Abs | faults/__init__.py:508-509 | `abs(x)` is nonnegative and is either x or -x |
| Expressions.RunDerivations | faults/__init__.py:66-69 | assigning the helper columns keeps the index and every non-helper column, adds nothing but helpers, and on success adds every helper |
| Expressions.RaisedPersists | faults/__init__.py:66-69 | once an assignment raises, the later assignments never run |
| Expressions.RunSingle | faults/__init__.py:705-706 | a single assignment either adds its column or raises and leaves the table as it was |
| Expressions.RunKeys | faults/__init__.py:266-272 | a run that raised nothing has exactly the original columns plus the helpers |
| Expressions.RunExtend | faults/__init__.py:266-272 | each assignment is evaluated against the table the earlier assignments left |
| Expressions.RunDerivationsInPlace | faults/__init__.py:266-272 | assigning the helpers one by one in place leaves the table `RunDerivations` describes and raises what it raises |
| Expressions.AtAgrees | faults/__init__.py:66-67 | an expression's value in a row depends only on the columns it reads |
| Expressions.DeriveAgrees | faults/__init__.py:66-69 | a helper column depends only on the presence and contents of the columns it reads |
| Expressions.LastSeesOriginal | faults/__init__.py:266-272 | helpers that read no helper see the caller's columns, whatever was assigned before them |
| Expressions.RunSucceedsIff | faults/__init__.py:266-272 | the helper assignments all succeed exactly when each helper can be computed from the caller's table alone |
| Expressions.RunHelperColumn | faults/__init__.py:266-272 | after a successful run, each helper column holds its expression evaluated on the caller's table |
| Expressions.RunReadsOnlyInputs | faults/__init__.py:266-272 | after a successful run, every helper was computable and holds its value on the caller's table |
| ThresholdRules.FlagColumn | faults/__init__.py:274-276 | `(h1 & h2 & ...).astype(int)` is 1 in a row exactly when every helper is True there, and is always 0 or 1 |
| ThresholdRules.Evaluate | faults/__init__.py:54-81 | the rule never changes the table's index (row count and timestamps) |
| ThresholdRules.EvaluateOk | faults/__init__.py:54-81 | on success the checks passed, every helper was assigned, and the flag is the AND of the helpers |
| ThresholdRules.Apply | faults/__init__.py:54-81 | applying a rule in place to a `DataFrame` leaves the table and raises the fault that `Evaluate` gives |
| ThresholdRules.ValidationFailureChangesNothing | faults/__init__.py:56-64 | when a column check fails, the table is left exactly as it was and that fault is raised; success implies every check passed |
| ThresholdRules.EvaluateShape | faults/__init__.py:71-81 | on success the flag column is present with values in {0,1} and every other original column is unchanged; the helpers are present exactly when troubleshooting |
| ThresholdRules.EvaluateKeepsOthers | faults/__init__.py:66-81 | a column that is neither a helper nor the flag is present afterwards exactly when it was before, with the same contents, whatever the outcome |
| ThresholdRules.IndicatorColumn | faults/__init__.py:66-69 | a helper column is True in a row exactly when its comparison holds there |
| ThresholdRules.EvaluateSucceedsIff | faults/__init__.py:66-72 | once the checks pass, the rule succeeds exactly when every helper can be computed from the caller's table |
| ThresholdRules.ReadColumnsPresent | faults/__init__.py:66-69 | a successful rule had every column its helpers read |
| ThresholdRules.FlagMeansAllChecks | faults/__init__.py:274-276 | on success the flag of a row is 1 exactly when every comparison of the rule holds in that row |
| ThresholdRules.TwoChecksFlag | faults/__init__.py:71-72 | for a rule with two helpers, the flag is 1 exactly when both comparisons hold |
| ThresholdRules.ThreeChecksFlag | faults/__init__.py:274-276 | for a rule with three helpers, the flag is 1 exactly when all three comparisons hold |
| FaultConditions.DiffPressWithPumpOff | faults/__init__.py:66-72 | fc1's helper names are distinct and differ from `fc1_flag` |
| FaultConditions.FlowWithPumpOff | faults/__init__.py:111-116 | fc2's and fc3's helper names are distinct and differ from the flag |
| FaultConditions.DiffPressAtFullSpeed | faults/__init__.py:205-211 | fc4's helper names are distinct and differ from `fc4_flag` |
| FaultConditions.LowFlowBypassOpen | faults/__init__.py:266-276 | fc5's three helper names are distinct and differ from `fc5_flag` |
| FaultConditions.SupplyBelowSetpointPumpOn | faults/__init__.py:318-324 | fc6's helper names are distinct and differ from `fc6_flag` |
| FaultConditions.LowGaugePressure | faults/__init__.py:363-368 | fc7's helper names are distinct and differ from `fc7_flag` |
| FaultConditions.ReturnTooHot | faults/__init__.py:409-415 | fc8's helper names are distinct and differ from `fc8_flag` |
| FaultConditions.ReturnTooCold | faults/__init__.py:456-462 | fc9's helper names are distinct and differ from `fc9_flag` |
| FaultConditions.HeaderTempMismatch | faults/__init__.py:508-514 | fc10's and fc11's helper names are distinct and differ from the flag |
| FaultConditions.ThresholdPlan | faults/__init__.py:37-575 | each threshold class's configuration yields a well-formed plan with its own troubleshoot setting |
| FaultConditions.CyclingPlan | faults/__init__.py:578-724 | each cycling class's configuration yields a well-formed plan with its own troubleshoot setting |
| FaultConditions.ColumnVersusNumber | faults/__init__.py:111 | a column-against-number comparison holds exactly when the column is present and its value in the row is present and compares as stated |
| FaultConditions.DiffPressLowAt | faults/__init__.py:66-67 | `dp < spt - thres` holds exactly when both values are present and dp is below the setpoint less the threshold |
| FaultConditions.SupplyBelowSetpointAt | faults/__init__.py:318-319 | the corrected fc6 check holds exactly when supply and setpoint are present and supply plus the threshold is below the setpoint |
| FaultConditions.OffsetVersusNumber | faults/__init__.py:409-410 | `ret - err > cond` and `ret + err < cond` hold exactly when the value is present and the inequality holds |
| FaultConditions.RatioOfProduct | faults/__init__.py:508-509 | for a nonzero flow, `flow * t / flow` is t |
| FaultConditions.HeaderMismatchAt | faults/__init__.py:560-561 | the header check holds exactly when the flow is present and nonzero, both temperatures are present, and they differ by more than the threshold; zero or missing flow gives False |
| FaultConditions.StatusPassed | faults/__init__.py:101-109 | a rule that succeeded had an int-typed status column with no value above 1 |
| FaultConditions.DiffPressWithPumpOffFlag | faults/__init__.py:66-72 | fc1 (corrected check): the flag of a row is 1 exactly when dp < spt - thres with both present and the pump status is 0 |
| FaultConditions.FlowWithPumpOffFlag | faults/__init__.py:155-160 | fc2 and fc3: the flag of a row is 1 exactly when the flow is present and above the threshold and the pump status is 0 |
| FaultConditions.DiffPressAtFullSpeedFlag | faults/__init__.py:205-211 | fc4: the flag of a row is 1 exactly when dp < spt - thres and the speed is at least the maximum less its error |
| FaultConditions.LowFlowBypassOpenFlag | faults/__init__.py:266-276 | fc5: the flag of a row is 1 exactly when flow < min - err, bypass >= 0.99 - err and the pump status is 1 |
| FaultConditions.SupplyBelowSetpointPumpOnFlag | faults/__init__.py:318-324 | fc6 (corrected comparison): the flag of a row is 1 exactly when supply + err < setpoint and the pump status is 1 |
| FaultConditions.LowGaugePressureFlag | faults/__init__.py:363-368 | fc7: the flag of a row is 1 exactly when the gauge pressure is below 0.9 times the tank setpoint and the pump status is 1 |
| FaultConditions.ReturnTooHotFlag | faults/__init__.py:409-415 | fc8: the flag of a row is 1 exactly when ret - err > cond and the pump status is 1 |
| FaultConditions.ReturnTooColdFlag | faults/__init__.py:456-462 | fc9: the flag of a row is 1 exactly when ret + err < cond and the pump status is 1 |
| FaultConditions.HeaderTempMismatchFlag | faults/__init__.py:508-514 | fc10 (and fc11, lines 560-566): the flag of a row is 1 exactly when the flow is present and nonzero, the boiler and header temperatures differ by more than the threshold, and the boiler status is 1 |
| CyclingRules.CountRisingEdges | faults/__init__.py:612-613 | the loop counts exactly the rising edges of the bucket: a 1 that opens the bucket or follows a value other than 1 |
| CyclingRules.RisingEdgesCountsEdges | faults/__init__.py:612-613 | the recursive count equals the size of the set of rising-edge positions |
| CyclingRules.RisingEdgesAlternate | faults/__init__.py:612-613 | two rising edges are never adjacent, so twice the count is at most the bucket's length, plus one if it ends in 1 |
| CyclingRules.OneMeansEdge | faults/__init__.py:612-613 | a bucket holding a 1 has at least one rising edge |
| CyclingRules.NoOneNoEdge | faults/__init__.py:612-613 | a bucket holding no 1 has no rising edge |
| CyclingRules.RisingEdgesBounds | faults/__init__.py:612-613 | the count is at most half the bucket's length rounded up, and it is 0 exactly when the bucket holds no 1 |
| CyclingRules.EdgesSeeOnlyOnes | faults/__init__.py:612-613 | only whether each value equals 1 matters to the count |
| CyclingRules.AlternatingStatusExample | faults/__init__.py:612-616 | status 0,1,0,1,0,1,0 in one hour has 3 starts: over a maximum of 2, not over a maximum of 3 |
| CyclingRules.StageJumpsExample | faults/__init__.py:710-712 | changes of 2 are not counted; only values of exactly 1 start an edge (0,2,0,2,1 has one) |
| CyclingRules.Trunc | faults/__init__.py:609 | `astype(int)` truncates toward zero |
| CyclingRules.CastColumn | faults/__init__.py:609 | a column with no NaN casts to an int column of the same length, each value truncated |
| CyclingRules.CastAll | faults/__init__.py:609 | `df.astype(int)` fails exactly when some column holds a NaN; otherwise every column is cast and the index and column names are kept |
| CyclingRules.Insert | faults/__init__.py:612 | inserting a row position keeps a permutation of the rows seen so far |
| CyclingRules.SortByTime | faults/__init__.py:612 | the time order of the first n rows is a permutation of those rows |
| CyclingRules.InsertKeepsOrder | faults/__init__.py:612 | inserting a row into a stable time order keeps it stable |
| CyclingRules.SortByTimeSorts | faults/__init__.py:612 | the rows are ordered by time, and rows with equal timestamps keep their original order |
| CyclingRules.HourOfBounds | faults/__init__.py:612 | every timestamp lies within its hour's bucket |
| CyclingRules.HourMonotone | faults/__init__.py:612 | later timestamps never fall into earlier hours |
| CyclingRules.HourCount | faults/__init__.py:612 | the hourly range covers every sample, and its last hour holds a sample |
| CyclingRules.InHourIsSlice | faults/__init__.py:612 | in time order, an hour's bucket holds exactly the consecutive samples after all samples of earlier hours and before all samples of later hours |
| CyclingRules.BucketsAreSlice | faults/__init__.py:612 | in time order, the buckets of consecutive hours, one after another, are the samples from the first hour's start to the last hour's end |
| CyclingRules.BucketsPartition | faults/__init__.py:612 | in time order, over hours that cover every sample, the buckets one after another are the whole series: each sample lands in exactly one bucket, in its order |
| CyclingRules.TimeOrderAscending | faults/__init__.py:612 | the times in the order resample uses never decrease |
| CyclingRules.BucketsCoverColumn | faults/__init__.py:612-613 | a column's bucket for an hour is one run of its time-ordered values, and over the output's hours the buckets are the whole column |
| CyclingRules.ResampledColumn | faults/__init__.py:612-613 | a resampled column has one int per hour in the range |
| CyclingRules.Resample | faults/__init__.py:612-613 | resampling keeps every column name and yields int columns |
| CyclingRules.ResampleHours | faults/__init__.py:612 | the hourly table has at least one row, its rows are consecutive hours, and every sample falls into one of them |
| CyclingRules.ResampleCountsEdges | faults/__init__.py:612-613 | the hourly value of a column is the rising-edge count of its samples in that hour, taken in time order |
| CyclingRules.CycleFlags | faults/__init__.py:615-616 | the hourly flag is 0 or 1 with one value per hour |
| CyclingRules.Evaluate | faults/__init__.py:594-625 | the caller's table keeps its index, and a returned hourly table is well formed |
| CyclingRules.CountCycles | faults/__init__.py:609-616 | the cast, resample and flag steps give a well-formed hourly table |
| CyclingRules.FlagHours | faults/__init__.py:615-625 | the flag is added, the helpers are removed unless troubleshooting, and the hourly index is kept |
| CyclingRules.CallerKeepsHelpers | faults/__init__.py:606-609 | after a successful `apply` the caller's table has its original columns plus the helper columns, the originals unchanged |
| CyclingRules.ReturnedColumns | faults/__init__.py:615-625 | the returned hourly table has the caller's columns and the flag, without the helpers unless troubleshooting |
| CyclingRules.EvaluateOk | faults/__init__.py:609-616 | on success the cast of the caller's table succeeded, and the result is its resampled counts with the flag |
| CyclingRules.CallerIsRun | faults/__init__.py:596-609 | on success the checks passed, every helper was assigned, and the caller holds the table those assignments left |
| CyclingRules.FlagMeansSomeColumnCycled | faults/__init__.py:609-616 | the flag of hour j is 1 exactly when some column of the int-cast table (data columns and helpers alike) has more rising edges in that hour than the maximum |
| CyclingRules.HourlyEdgeCounts | faults/__init__.py:612-613 | the per-hour loop computes each hour's rising-edge count |
| CyclingRules.ResampleCounts | faults/__init__.py:612-613 | the per-column loop builds the resampled table |
| CyclingRules.Apply | faults/__init__.py:594-625 | applying a cycling rule in place leaves the caller's table and returns a fresh hourly table or the fault, as `Evaluate` gives |
| Findings.OneAsWrittenAlwaysRaises | faults/__init__.py:56-63 | fc1 as written raises AttributeError on every table and leaves it unchanged |
| Findings.OneValidatesStatus | faults/__init__.py:101-109 | corrected fc1 passes its checks exactly when the pump status column is int-typed with no value above 1 |
| Findings.SixAsWrittenAlwaysRaises | faults/__init__.py:318-319 | fc6 as written always raises and leaves the table unchanged; once its checks pass and the supply column exists, it raises from comparing with the setpoint column's name |
| Findings.NineAsWrittenIsEleven | faults/__init__.py:473-575 | the class FaultConditionNine as written is the fc11 rule and writes `fc11_flag` |
| Findings.NineAsWrittenNeverFlagsNine | faults/__init__.py:532-575 | the class as written never creates or changes an `fc9_flag` column |
| Findings.NineFlagsNine | faults/__init__.py:456-462 | corrected fc9 writes `fc9_flag` from the return-plus-threshold-below-condensing check |
| Findings.FourteenAsWrittenFailsCast | faults/__init__.py:705-708 | fc14 as written leaves NaN in row 0 of `boiler_stage_change`, so the int cast raises on every nonempty table that passes its check |
| Findings.StageChangeAt | faults/__init__.py:705-706 | the corrected stage change is 0 in row 0 and the size of the step from the row before elsewhere |
| Findings.FourteenCastSucceeds | faults/__init__.py:705-708 | corrected fc14 gets past the cast whenever the caller's own table holds no NaN |

## Left out

- Troubleshoot `print` calls: console output that changes no result.
- `HelperUtils.isfloat`: it wraps Python's `float()` parsing behind a bare `except`, a foreign call, and no rule uses it.
- IEEE-754 arithmetic: values are exact reals, and NaN is a missing cell. Comparisons with NaN are False, and arithmetic with NaN is NaN.
- The pandas dtype system: a column is tagged int, float or bool. The binary-status checks treat only the int tag as integer. Values outside the int64 range are not modelled.
- Non-numeric (object or string) columns, duplicate column labels and duplicate index labels are not modelled.
- `resample('H')` calendar and timezone details: an hour is `t / 3600` on integer seconds. There is one output row per hour from the first sample's hour to the last's, and an empty hour counts 0.
- `.any(1)`: the positional axis argument is read as row-wise "any".
- Configured thresholds and set points are reals, and maximum cycle counts are ints. The source's Python numbers are not typed.
- DiffPressWithPumpOffFlag: requires the data column names to differ from the rule's helper names (a data column named like a helper would be overwritten before it is read).
- FlowWithPumpOffFlag: requires the data column names to differ from the rule's helper names.
- DiffPressAtFullSpeedFlag: requires the data column names to differ from the rule's helper names.
- LowFlowBypassOpenFlag: requires the data column names to differ from the rule's helper names.
- SupplyBelowSetpointPumpOnFlag: requires the data column names to differ from the rule's helper names.
- LowGaugePressureFlag: requires the data column names to differ from the rule's helper names.
- ReturnTooHotFlag: requires the data column names to differ from the rule's helper names.
- ReturnTooColdFlag: requires the data column names to differ from the rule's helper names.
- HeaderTempMismatchFlag: requires the data column names to differ from the rule's helper names.
- FlagMeansSomeColumnCycled: stated on the int-cast table that `CyclingRules.EvaluateOk` shows the rule resamples, not directly on the caller's table.
- Findings.StageChangeAt: the corrected fc14 treats row 0's stage change as 0 (no change). It does not require the first row to be removed.

## Findings

| source | as written | input that shows it | evidently intended | confidence | as-written member | corrected member |
|---|---|---|---|---|---|---|
| faults/__init__.py:56-63 | fc1's check loop reads `self.pump_vfd_speed_col`, which `__init__` (lines 40-52) never sets | any table | one plausible fix: check that the pump status column it reads is binary, as fc2 and fc3 do. This adds a range check that the source never performs. The comment at line 56 names a float-percentage check on a speed column the class does not take, so deleting the loop is an equally likely fix | not executed | Findings.OneAsWrittenAlwaysRaises | Findings.OneValidatesStatus, FaultConditions.DiffPressWithPumpOffFlag |
| faults/__init__.py:318-319 | fc6 compares the supply temperature series with the setpoint column's name, a string | any table whose status column passes and that has the supply column | compare with `df[self.hot_water_supply_temp_spt_col]` | not executed | Findings.SixAsWrittenAlwaysRaises | FaultConditions.SupplyBelowSetpointAt, FaultConditions.SupplyBelowSetpointPumpOnFlag |
| faults/__init__.py:473-575 | FaultConditionTen and FaultConditionEleven are empty classes nested in FaultConditionNine, so Nine's methods are redefined as fc11's | any table: whatever arguments FaultConditionNine gets, they bind to fc11's parameters and `apply` writes `fc11_flag` | three separate classes for fc9, fc10 and fc11 | not executed | Findings.NineAsWrittenIsEleven, Findings.NineAsWrittenNeverFlagsNine | Findings.NineFlagsNine, FaultConditions.ReturnTooColdFlag, FaultConditions.HeaderTempMismatchFlag |
| faults/__init__.py:705-708 | `abs(diff()).dropna()` is assigned back aligned on the index, so row 0 stays NaN and `astype(int)` raises | any table with at least one row whose stage column is int-typed | a row-0 stage change of 0 (no change), so the cast succeeds | not executed | Findings.FourteenAsWrittenFailsCast | Findings.StageChangeAt, Findings.FourteenCastSucceeds |
