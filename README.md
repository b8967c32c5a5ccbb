# caliper metrics core, in Dafny

This project models the core of the `caliper` metrics library. It covers:

- **Reservoirs** — the stores a histogram keeps its values in:
  - the unbounded `Reservoir`;
  - the ring buffer `SlidingWindowReservoir`;
  - `UniformReservoir`, which its docstring calls Vitter's Algorithm R, though once full it draws the replaced index from `0..count-1` where Algorithm R draws from `0..count`;
  - `ExponentiallyDecayingReservoir`, a map from priority to `(value, weight)` that keeps the largest priorities and is rescaled once an hour.
- **Snapshots** — the immutable sorted views taken of a reservoir, with the quantile, mean and variance rules:
  - `Snapshot`;
  - `WeightedSnapshot`.
- **Metrics** — the metric objects:
  - `Counter` and `Gauge`;
  - `Histogram`, which counts and forwards to a reservoir;
  - `EWMA`, the exponentially weighted moving average, with its update and tick;
  - `Meter`, with mark and tick;
  - `Timer` and its `Context` exit decision.
- **Registry** — dotted metric names checked label by label against the label pattern, and registered into (and looked up in) a tree of nested namespaces.

## How the model is laid out

Each Dafny module follows one Python module:

| Dafny file | Dafny module | Python module | form |
|---|---|---|---|
| `outcomes.dfy` | `Outcomes` | — | `Option` and `Result`, which stand in for Python's `None` and for raised exceptions |
| `sorting.dfy` | `Sorting` | — | Python's `sorted` over a total order |
| `snapshot.dfy` | `Snapshots` | `caliper/snapshot.py` | pure functions over sorted sequences of reals, with lemmas |
| `reservoir.dfy` | `Reservoirs` | `caliper/reservoir.py` | one class per reservoir, plus `AnyReservoir`, the union the metrics hold |
| `metric.dfy` | `Metrics` | `caliper/metric.py` | one class per metric; EWMA arithmetic as functions on an `EwmaState` |
| `registry.dfy` | `Registries` | `caliper/registry.py` | name splitting and label checking as functions; the tree as a value; `Registry` as a class |

Conventions:

- Floats are Dafny `real`s.
- Every reservoir keeps a ghost `history` of the values offered to it. Its contracts are stated against that history.
- Inputs the source draws itself are parameters of the methods:
  - the clock (`now`, `timestamp`);
  - the random draws (`randint`'s index, `random()`'s scale);
  - the results of `exp` (a sample's weight, the rescale factor, the EWMA alphas).
- Where the source raises an exception, the model returns `Err`.
- `requires` clauses stand for:
  - the sliding window's `assert size > 0`;
  - a division by zero (a zero total weight, a zero EWMA interval);
  - the ranges of the values passed in: the index `randint(0, count - 1)` returns, the `random()` draw in (0, 1), positive `exp` results;
  - how the source calls its own code: a histogram never passes a timestamp to its reservoir, and a timing context reads its start time only after `__enter__`.
- The decaying reservoir's `assert timestamp > landmark` and the two size-0 failures are `Err` results, not preconditions.

## Model

| member | source | states |
|---|---|---|
| Sorting.Sort | caliper/snapshot.py:17 | `sorted` returns an ordered permutation of its input |
| Sorting.SortedUnique | caliper/snapshot.py:17 | two ordered permutations of the same elements are equal, so a sorted result depends only on the multiset of its input |
| Snapshots.NewSnapshot | caliper/snapshot.py:16-17 | a snapshot is its input sorted ascending: ordered, and a permutation of the input |
| Snapshots.NewSnapshotPermutation | caliper/snapshot.py:16-17 | inputs holding the same values, in any order, give the same snapshot |
| Snapshots.Interpolate | caliper/snapshot.py:41 | the interpolation rule `lower + fraction * (upper - lower)`; its properties are `InterpolateBounds` and `InterpolateMonotone` |
| Snapshots.InterpolateBounds | caliper/snapshot.py:41 | interpolating between two ordered neighbours at a fraction in [0, 1) stays between them |
| Snapshots.InterpolateMonotone | caliper/snapshot.py:41 | the interpolation grows with the fraction |
| Snapshots.QuantileIndex | caliper/snapshot.py:31-32 | `index` is `floor(q * (n + 1))`: at most the position and more than the position minus one |
| Snapshots.GetValue | caliper/snapshot.py:19-43 | a quantile outside [0, 1] is an error, and only such a quantile; an empty snapshot gives 0; on an ordered snapshot the result lies between the first and the last element |
| Snapshots.GetValueBracket | caliper/snapshot.py:31-41 | the result lies between elements `index - 1` and `index`, clamped to the ends of the snapshot |
| Snapshots.GetValueExtremes | caliper/snapshot.py:34-37 | index 0 selects the first element; an index at or past the length selects the last |
| Snapshots.GetValueMonotone | caliper/snapshot.py:19-43 | on an ordered snapshot a larger quantile never gives a smaller value |
| Snapshots.Mean | caliper/snapshot.py:45-49 | the mean of an empty snapshot is 0 |
| Snapshots.MeanBounds | caliper/snapshot.py:45-49 | the mean of a non-empty snapshot lies between its smallest and largest element |
| Snapshots.MeanOfConstant | caliper/snapshot.py:45-49 | `n` copies of `c` have mean `c` |
| Snapshots.Variance | caliper/snapshot.py:51-57 | the variance under `stddev`'s square root is non-negative, and 0 whenever there is at most one element |
| Snapshots.VarianceOfConstant | caliper/snapshot.py:51-57 | a constant snapshot has variance 0 |
| Snapshots.SnapshotOfTestValues | caliper/snapshot.py:16-17 | the values 5, 1, 2, 3, 4 make the snapshot 1, 2, 3, 4, 5 |
| Snapshots.SnapshotTestQuantiles | caliper/snapshot.py:19-57 | on 1..5: quantile 0.42 gives 2.52, 0.75 gives 4.5, 0.95 and 1 give 5, and -0.42 and 1.1 are errors; the mean is 3 and the variance 2.5 |
| Snapshots.SortSamples | caliper/snapshot.py:66 | the `(value, weight)` pairs are sorted by value and then by weight, and are a permutation of the input |
| Snapshots.NewWeighted | caliper/snapshot.py:62-77 | a weighted snapshot has one value, normalised weight and cumulative weight per sample; its values are ascending and are exactly the input values; position `i` holds the `i`-th sorted pair, its weight divided by the total |
| Snapshots.NewWeightedPairs | caliper/snapshot.py:66-73 | each value keeps its own weight: the normalised weights, scaled back by the total, give exactly the input `(value, weight)` pairs |
| Snapshots.NewWeightedPermutation | caliper/snapshot.py:62-77 | the samples' order does not change the weighted snapshot |
| Snapshots.NewWeightedNormalised | caliper/snapshot.py:72-75 | the normalised weights sum to 1; `_quantiles[i]` is the sum of the normalised weights before `i`, so `_quantiles[0]` is 0 |
| Snapshots.PrefixSumsMonotone | caliper/snapshot.py:75 | with non-negative weights the cumulative weights do not decrease |
| Snapshots.NewWeightedNonNegative | caliper/snapshot.py:72-75 | non-negative weights give non-negative normalised weights, so (by `PrefixSumsMonotone`) the cumulative weights do not decrease |
| Snapshots.NewWeightedScaleFree | caliper/snapshot.py:62-77 | multiplying every weight by the same non-zero factor gives the same snapshot |
| Snapshots.FirstAbove | caliper/snapshot.py:83-87 | the search stops at the first position whose cumulative weight exceeds the quantile, or at the length when there is none |
| Snapshots.FirstAboveMonotone | caliper/snapshot.py:83-87 | a larger quantile stops the search no earlier |
| Snapshots.WeightedValueAt | caliper/snapshot.py:89-92 | the element selected is always one of the snapshot's values |
| Snapshots.WeightedGetValue | caliper/snapshot.py:79-94 | a quantile outside [0, 1] is an error, and so is a quantile in range on an empty snapshot; otherwise the search loop returns the value at `max(pos - 1, 0)` |
| Snapshots.WeightedValueMonotone | caliper/snapshot.py:79-94 | on ascending values a larger quantile never selects a smaller value |
| Snapshots.WeightedValueAtOne | caliper/snapshot.py:79-94 | with non-negative weights quantile 1 selects the largest value |
| Snapshots.WeightedMean | caliper/snapshot.py:96-100 | the weighted mean of an empty snapshot is 0 |
| Snapshots.WeightedMeanBounds | caliper/snapshot.py:96-100 | with non-negative weights the weighted mean lies between the smallest and the largest value |
| Snapshots.WeightedVariance | caliper/snapshot.py:102-107 | the weighted variance is non-negative when the weights are, and 0 whenever there is at most one element |
| Snapshots.WeightedOfTestSamples | caliper/snapshot.py:62-77 | the test samples give values 1..5, normalised weights 0.2, 0.3, 0.2, 0.2, 0.1 and cumulative weights 0, 0.2, 0.5, 0.7, 0.9 |
| Snapshots.WeightedTestQuantiles | caliper/snapshot.py:79-94 | on that snapshot quantile 0.01 gives 1, 0.75 gives 4, and 0.95 and 1 give 5 |
| Snapshots.WeightedTestMean | caliper/snapshot.py:96-100 | on that snapshot the weighted mean is 2.7 |
| Reservoirs.Reservoir.constructor | caliper/reservoir.py:21-23 | a new reservoir holds nothing |
| Reservoirs.Reservoir.Update | caliper/reservoir.py:46-48 | every value is appended, in arrival order |
| Reservoirs.Reservoir.Len | caliper/reservoir.py:36-40 | `len` is the number of values ever offered |
| Reservoirs.Reservoir.Snapshot | caliper/reservoir.py:29-34 | the snapshot is every value offered, sorted |
| Reservoirs.Window | caliper/reservoir.py:62-67 | a window of `size` over `h` holds `min(len(h), size)` values |
| Reservoirs.WindowHoldsLast | caliper/reservoir.py:62-67 | the window holds exactly the last `min(len(h), size)` values offered |
| Reservoirs.WindowAt | caliper/reservoir.py:62-67 | once full, slot `j` holds the most recent value whose count is `j` modulo `size` |
| Reservoirs.WindowStep | caliper/reservoir.py:62-67 | once full, a new value overwrites slot `count % size` and nothing else |
| Reservoirs.SlidingWindowReservoir.constructor | caliper/reservoir.py:56-60 | the size must be positive; a new window is empty |
| Reservoirs.SlidingWindowReservoir.Update | caliper/reservoir.py:62-67 | the value joins the history, and the buffer becomes the window of the new history |
| Reservoirs.SlidingWindowReservoir.Len | caliper/reservoir.py:36-40 | `len` counts every update, not the values kept |
| Reservoirs.SlidingWindowReservoir.Snapshot | caliper/reservoir.py:29-34 | the snapshot holds `min(count, size)` values: the most recent ones, sorted |
| Reservoirs.SlidingWindowOfThirty | caliper/reservoir.py:62-67 | the values 0..29 through a window of 15 leave 15..29 in slot order |
| Reservoirs.UniformReservoir.constructor | caliper/reservoir.py:77-79 | a new reservoir holds nothing |
| Reservoirs.UniformReservoir.Update | caliper/reservoir.py:81-88 | a size of 0 is an error (an empty `randint` range) and changes nothing; while filling, the value is appended; once full, the drawn index in `[0, count - 1]` overwrites that slot when it is below the size, and otherwise nothing changes; the buffer keeps `min(count, size)` values, each one offered earlier |
| Reservoirs.UniformReservoir.Len | caliper/reservoir.py:36-40 | `len` counts every update, not the values kept |
| Reservoirs.UniformReservoir.Snapshot | caliper/reservoir.py:29-34 | the snapshot is the buffer sorted: `min(count, size)` values, all of them offered; before the reservoir fills, it holds all of them |
| Reservoirs.MinKeyOf | caliper/reservoir.py:125 | a non-empty map has a least priority |
| Reservoirs.FirstKey | caliper/reservoir.py:125 | the scan finds the least priority, `sorted(keys)[0]` |
| Reservoirs.Admit | caliper/reservoir.py:122-128 | the map after a sample is offered; its properties are `AdmitKeepsLargest`, `AdmitFullSize`, `AdmitFillingSize` and `AdmitPreserves` |
| Reservoirs.Offer | caliper/reservoir.py:122-128 | storing a sample is `Admit`: added while filling; once full, added only when its priority beats the least priority and is not already a key, which then evicts the least |
| Reservoirs.AdmitKeepsLargest | caliper/reservoir.py:122-128 | every priority kept exceeds every priority ever dropped, so the reservoir keeps the largest priorities drawn |
| Reservoirs.AdmitFullSize | caliper/reservoir.py:124-128 | a full reservoir keeps its number of samples |
| Reservoirs.AdmitFillingSize | caliper/reservoir.py:122-123 | a filling reservoir grows by at most one sample |
| Reservoirs.AdmitExamples | caliper/reservoir.py:122-128 | with priorities 1 and 2 held: 3 evicts 1; 0.75 and the existing key 2 are turned away; while filling, 0.75 is added |
| Reservoirs.PriorityAboveWeight | caliper/reservoir.py:117-120 | a positive weight divided by a draw from (0, 1) exceeds the weight |
| Reservoirs.Rescaled | caliper/reservoir.py:149-154 | the rescaled map; its properties are `RescaledAt`, `RescaledKey`, `RescaledSize`, `RescaledKeepsLargest` and `RescaleKeepsSnapshot` |
| Reservoirs.RescaledAt | caliper/reservoir.py:142-154 | after rescaling, the entry at `k` sits at `k * factor`, with its value kept and its weight scaled |
| Reservoirs.RescaledKey | caliper/reservoir.py:142-154 | every rescaled priority comes from an old priority |
| Reservoirs.RescaledSize | caliper/reservoir.py:142-154 | rescaling by a positive factor loses no sample |
| Reservoirs.RescaledKeepsLargest | caliper/reservoir.py:142-154 | rescaling keeps the order of priorities, so the kept priorities still exceed every dropped one, rescaled |
| Reservoirs.RescaleKeepsSnapshot | caliper/reservoir.py:132-133 | rescaling does not change the weighted snapshot the reservoir reports |
| Reservoirs.RescaleExample | caliper/reservoir.py:142-154 | keys 2 and 4 with weights 1 and 2, rescaled by 0.5, become keys 1 and 2 with weights 0.5 and 1 |
| Reservoirs.RescaleMap | caliper/reservoir.py:142-154 | the rebuilding loop builds exactly the rescaled map |
| Reservoirs.SnapshotOrderFree | caliper/reservoir.py:132-133 | the weighted snapshot does not depend on the order in which the map is iterated |
| Reservoirs.SampledValuesOffered | caliper/reservoir.py:132-133 | every value in a decaying reservoir's snapshot was offered to it |
| Reservoirs.RescalePreserves | caliper/reservoir.py:142-154 | rescaling keeps the reservoir's invariant: at most `size` samples, each weight positive and below its priority, each value offered, the largest priorities kept |
| Reservoirs.AdmitPreserves | caliper/reservoir.py:117-130 | storing a sample keeps that invariant and counts the update |
| Reservoirs.ExponentiallyDecayingReservoir.constructor | caliper/reservoir.py:100-106 | a new reservoir is empty, with the landmark at the start and the next rescale one hour later |
| Reservoirs.ExponentiallyDecayingReservoir.Rescale | caliper/reservoir.py:142-158 | every priority and weight is multiplied by the factor and values are kept; the landmark moves to now and the next rescale to an hour later; the history is unchanged |
| Reservoirs.ExponentiallyDecayingReservoir.RescaleIfNeeded | caliper/reservoir.py:135-137 | the reservoir is rescaled exactly when the next-rescale time has been reached, and then the landmark moves to now and the next rescale to an hour later; otherwise nothing changes |
| Reservoirs.ExponentiallyDecayingReservoir.Update | caliper/reservoir.py:108-130 | after any due rescale (which moves the landmark and the next rescale): a timestamp, or the later clock reading standing in for a missing one, not after the landmark fails the source's assertion; a size of 0 fails on an empty priority list; both failures change no sample; otherwise the sample is stored under `weight / scale` by the admission rule, the map never exceeds `size`, and `len` counts the update |
| Reservoirs.ExponentiallyDecayingReservoir.Record | caliper/reservoir.py:110-130 | the same steps after the rescale check, with the timestamp already chosen |
| Reservoirs.ExponentiallyDecayingReservoir.Len | caliper/reservoir.py:36-40 | `len` counts every successful update |
| Reservoirs.ExponentiallyDecayingReservoir.Snapshot | caliper/reservoir.py:132-133 | the snapshot is the weighted snapshot of the stored samples, taken in map order, and every value in it was offered |
| Reservoirs.AnyReservoir.Len | caliper/reservoir.py:36-40 | any reservoir's `len` is the number of values recorded |
| Reservoirs.AnyReservoir.Fails | caliper/reservoir.py:81-130 | when an update raises: never for the unbounded and sliding reservoirs; at size 0 for the uniform one; for the decaying one on a timestamp not after the (possibly rescaled) landmark, or at size 0 |
| Reservoirs.UpdatedWith | caliper/reservoir.py:46-130 | the effect of one `update` on any reservoir, stated once and relayed by every caller: failure exactly when `Fails` held; the history extended by the value only on success; the uniform buffer appended to, overwritten at slot `index` when it is below the size, or kept; the decaying reservoir's landmark and next rescale moved when a rescale was due, and its map rescaled and then, on success, given the value by `Admit` under priority `weight / scale` |
| Reservoirs.AnyReservoir.Update | caliper/reservoir.py:46-130 | `UpdatedWith` holds: an update fails exactly when `Fails` says so; a successful one appends the value to the history, and a failed one leaves it unchanged; the uniform reservoir's buffer grows, has slot `index` overwritten or stays as it was, as that class's `update` says; the decaying reservoir's landmark, next rescale and map follow its rescale and admission rules |
| Reservoirs.AnyReservoir.Snapshot | caliper/reservoir.py:29-34 | the decaying reservoir, and only it, gives a weighted snapshot; a plain snapshot is sorted and holds the whole history (unbounded), its most recent `min(count, size)` values (sliding) or the buffer (uniform); a weighted one is `WeightedSnapshot` of the stored samples in dictionary order, every value of it offered |
| Metrics.Counter.constructor | caliper/metric.py:25-26 | a counter starts at 0 |
| Metrics.Counter.Inc | caliper/metric.py:36-38 | `inc(n)` adds exactly `n` |
| Metrics.Counter.Dec | caliper/metric.py:40-42 | `dec(n)` subtracts exactly `n` |
| Metrics.Gauge.constructor | caliper/metric.py:53-54 | a gauge starts unset |
| Metrics.Gauge.Get | caliper/metric.py:64-65 | reads the value the setter stored; `Gauge.Set` states the read-back |
| Metrics.Gauge.Set | caliper/metric.py:60-62 | reading back after setting gives the value set |
| Metrics.FreshReservoirDiscarded | caliper/metric.py:11-16 | as written, a given reservoir is replaced by the default exactly when it is empty; with none given both versions make the default; the corrected choice always keeps a given reservoir |
| Metrics.Histogram.constructor | caliper/metric.py:11-16 | a histogram starts at count 0; with no reservoir given it makes a fresh, empty decaying reservoir of size 1028 and alpha 0.015, with its landmark at the given clock reading and the next rescale an hour later; a given reservoir is kept by the corrected rule `Choose`, even when it is empty, where the source replaces an empty one (see Findings) |
| Metrics.Histogram.Update | caliper/metric.py:75-77 | every update adds 1 to the count and forwards the value and the caller's draws unchanged, with no timestamp, to the reservoir: `UpdatedWith` gives the reservoir's failure condition, history, uniform buffer and decaying landmark, next rescale and map exactly |
| Metrics.Histogram.Snapshot | caliper/metric.py:18-19 | the histogram's snapshot is its reservoir's, with the same exact contents per kind of reservoir |
| Metrics.Ticked | caliper/metric.py:218-228 | one tick of the averaging rule; its properties are `TickedRate` and `IdleDecay` |
| Metrics.TickedN | caliper/metric.py:164-176 | `k` ticks in a row; `TickedNStep` and `IdleDecay` state its properties |
| Metrics.TickedRate | caliper/metric.py:218-228 | a tick zeroes the pending count; the first tick sets the rate to count/interval; later ticks move the rate toward the instant rate and, for alpha in [0, 1], leave it between the old and the instant rate |
| Metrics.TickedNStep | caliper/metric.py:218-228 | `k + 1` ticks are `k` ticks then one more |
| Metrics.IdleDecay | caliper/metric.py:218-228 | with no events, `k` ticks multiply the rate by `(1 - alpha)^k` |
| Metrics.EWMA.constructor | caliper/metric.py:203-208 | an EWMA starts with no pending count, uninitialised, at rate 0 |
| Metrics.EWMA.Update | caliper/metric.py:215-216 | `update(n)` adds `n` to the pending count and changes nothing else |
| Metrics.EWMA.Tick | caliper/metric.py:218-228 | `tick()` applies one step of the averaging rule to the state |
| Metrics.EwmaExample | caliper/metric.py:215-228 | with alpha 0.5 over 5 seconds, updates of 3 and then 2, each followed by a tick, give rates 0.6 and then 0.5 |
| Metrics.MeterRateScaled | caliper/metric.py:146-148 | as written, 10 events over a meter interval of 10 report rate 2 per second; with the EWMA's interval taken from the meter, the rate times the interval is the event count |
| Metrics.TickCount | caliper/metric.py:169-176 | the number of ticks `_tick` makes for an age; `TickCountBounds` states it is `floor(age / interval)` past one interval |
| Metrics.TickCountBounds | caliper/metric.py:164-176 | an age beyond the interval gives `k >= 1` ticks with `k * interval <= age < (k + 1) * interval`; otherwise no tick |
| Metrics.TickCountExamples | caliper/metric.py:164-176 | an age of 14 with interval 5 gives 2 ticks; two ages of 9 give one tick each where 18 gives 3 |
| Metrics.Meter.constructor | caliper/metric.py:142-148 | a meter starts at count 0 with three fresh, uninitialised EWMAs and its last tick at the start; the EWMAs tick over the meter's own interval by the corrected rule `EwmaInterval`, where the source always uses 5 seconds (see Findings) |
| Metrics.Marked | caliper/metric.py:157-176 | the effect of one `mark(n)` at a given time: count plus `n`, the last tick moved to now exactly when more than an interval has passed, and each EWMA ticked `TickCount` times and then given `n` pending events |
| Metrics.Meter.Mark | caliper/metric.py:157-162 | `Marked` holds: `mark(n)` first ticks as `_tick` does, then adds `n` to the count and to each EWMA's pending count |
| Metrics.Meter.Tick | caliper/metric.py:164-176 | when the age exceeds the interval the last tick moves to now and each EWMA ticks `floor(age / interval)` times; otherwise nothing changes |
| Metrics.Timer.constructor | caliper/metric.py:105-108 | a timer starts with a zero-count histogram and a zero-count meter. The meter ticks every 5 seconds and takes its last tick from its own clock reading. Its three EWMAs start uninitialised, with rate 0 and the given alphas. With no reservoir given, the histogram gets a fresh, empty decaying reservoir of size 1028 and alpha 0.015, whose landmark is the earlier clock reading. A given reservoir is kept by the corrected rule `Choose` (see Findings) |
| Metrics.Timer.Update | caliper/metric.py:123-127 | a non-positive duration changes neither the histogram nor the meter; a positive one is counted by the histogram and given to the reservoir with the caller's draws (`UpdatedWith`: failure condition, history and the new buffer or map exactly), and unless that fails it marks the meter once at the same time (`Marked` with 1: count plus 1, last tick, the due ticks and 1 more event in each EWMA) |
| Metrics.Timer.Time | caliper/metric.py:110-121 | `time()` returns a fresh context bound to the timer, neither started nor aborted |
| Metrics.RecordsOnExit | caliper/metric.py:99-102 | the exit decision as the source writes it; `RecordsOnExitMeaning` states its meaning |
| Metrics.RecordsOnExitMeaning | caliper/metric.py:98-103 | an aborted context never records; otherwise a failure records exactly when `update_on_failure` is set, and a success exactly when `update_on_success` is |
| Metrics.Context.constructor | caliper/metric.py:85-89 | a context starts neither aborted nor started, with its timer and flags |
| Metrics.Context.Abort | caliper/metric.py:91-92 | `abort()` marks the context aborted |
| Metrics.Context.Enter | caliper/metric.py:94-96 | entering records the start time |
| Metrics.Context.Exit | caliper/metric.py:98-103 | on exit the timer is given the elapsed time exactly when the exit rule says so; when it does not, or the elapsed time is not positive, nothing changes and no error arises; otherwise the histogram counts it, the reservoir receives it with the caller's draws (`UpdatedWith`), and unless that fails the meter is marked once at its own later clock reading (`Marked` with 1), while a failure leaves the meter unchanged; an aborted context need not have been entered |
| Registries.Split | caliper/registry.py:64 | `name.split('.')` gives at least one label, and no label holds a dot |
| Registries.JoinSplit | caliper/registry.py:64 | joining the split labels with dots gives back the name |
| Registries.SplitJoin | caliper/registry.py:64 | splitting dot-free labels joined with dots gives back the labels |
| Registries.MatchesLabel | caliper/registry.py:5 | the label pattern: a letter or underscore, then letters, digits or underscores, optionally followed by one newline; `MatchesLabelShape` and `LabelExamples` state its properties |
| Registries.MatchesLabelShape | caliper/registry.py:5 | a label matching the pattern is non-empty and holds no dot |
| Registries.LabelExamples | caliper/registry.py:5 | `_x9` and `Timer` match; `9x`, `a-b`, the empty label and a label with two trailing newlines do not; one trailing newline is accepted |
| Registries.FirstInvalid | caliper/registry.py:69-72 | no label is reported exactly when every label matches; a reported label does not match and is the first such label in order: every label before it matches |
| Registries.SplitName | caliper/registry.py:63-73 | a name is accepted exactly when every label matches, and then its labels join back to the name; otherwise the error names the first label, in order, that does not match |
| Registries.SplitNameJoin | caliper/registry.py:63-73 | matching labels joined with dots are accepted as exactly those labels |
| Registries.SplitNameEmpty | caliper/registry.py:63-73 | the empty name is rejected as an invalid empty label |
| Registries.SplitNameEmptyLabel | caliper/registry.py:63-73 | `a..b` is rejected for its empty label |
| Registries.InsertAsWrittenDiffers | caliper/registry.py:30-47 | as written, registering at an existing namespace succeeds and changes nothing; in every other case it agrees with the corrected insert |
| Registries.NamespaceSwallowsMetric | caliper/registry.py:30-47 | registering `a.b` then `a` succeeds as written but leaves no metric at `a` |
| Registries.Lookup | caliper/registry.py:52-61 | the node a path leads to, or nothing when a label is missing; `Registry.Query` is proved to compute it |
| Registries.LookupChain | caliper/registry.py:43-47 | a chain of new namespaces ending in the metric holds the metric at its full path |
| Registries.InsertRoundTrip | caliper/registry.py:30-47 | after a successful insert the name holds the metric, and every proper prefix of it holds a namespace |
| Registries.InsertFrame | caliper/registry.py:30-47 | a successful insert changes no path that is not a prefix of the name |
| Registries.InsertFails | caliper/registry.py:37-42 | an insert fails exactly when the name or one of its prefixes is occupied by a metric, or the name is a namespace, and then the error is `DuplicateName` |
| Registries.Registry.constructor | caliper/registry.py:20 | a new registry is empty |
| Registries.Registry.Register | caliper/registry.py:30-47 | an invalid name is rejected before any change; otherwise the walk-and-insert loops leave the registry as the corrected tree insert `Insert` says, and a failure leaves it unchanged; at an existing namespace this is `DuplicateName`, where the source silently does nothing (see Findings) |
| Registries.Registry.Query | caliper/registry.py:49-61 | an invalid name is rejected; otherwise the walk returns the node at the name, or nothing when a label is missing |
| Registries.RegisterThenQuery | caliper/registry.py:30-61 | after a successful registration, querying the name returns the metric |

## Left out

- Wall-clock time, `random()`, `randint` and `exp` are not computed. The timestamps, the draws, the weights, the rescale factors and the EWMA alphas are parameters, with preconditions on their ranges. Nothing probabilistic (uniform retention, recency bias) is claimed.
- Floats are Dafny reals, so rounding is not modelled. The examples (2.52, 4.5, 2.7, 0.6, 0.5) hold exactly.
- `stddev`'s `math.sqrt` is not modelled. `Snapshots.Variance` and `Snapshots.WeightedVariance` are the quantities under the root.
- `cached_property` caching of `mean` and `stddev` is not modelled: snapshots are immutable values, so the cache cannot be observed.
- Snapshots.NewWeighted: a non-empty sample list whose weights sum to 0 raises `ZeroDivisionError` in the source. It is a precondition here.
- Snapshots.WeightedGetValue: the source reads element 0 of an empty weighted snapshot, which raises `IndexError`. The model reports it as an `EmptySnapshot` error instead.
- The sliding window's `assert size > 0` is the precondition of its constructor.
- `UniformReservoir` with size 0 raises from `randint(0, -1)`, and `ExponentiallyDecayingReservoir` with size 0 raises on an empty priority list. Both are modelled as `Err` results that change nothing.
- `ExponentiallyDecayingReservoir`'s constructor reads the clock twice, and `_rescale_if_needed` with `_rescale` reads it three times. The model uses one `now` for each group. The separate reading for a missing timestamp in `update` is the parameter `later`. The other separate readings are parameters too: the meter's start in `Metrics.Timer.constructor` is `meterNow`, and the meter's tick time in `Metrics.Context.Exit` is `markNow`.
- `ExponentiallyDecayingReservoir.Snapshot` takes the map in some iteration order. The model does not fix Python's insertion order; `Reservoirs.SnapshotOrderFree` shows the order does not matter.
- The `(value, weight)` map and the registry's nested dictionaries are values here, not shared objects. Aliasing of a nested dictionary handed out by `query` and then mutated is not captured.
- `Registry.query` through a name whose middle label holds a metric: the source then applies `in` to the metric object. No metric class defines `__contains__`, `__iter__` or `__getitem__`, so Python raises `TypeError`. The model returns nothing instead.
- `Registry.default_registry` (a class-level singleton) and the `__setitem__`/`__getitem__` aliases are not modelled; they only forward to `register` and `query`.
- Registries.MatchesLabel: the pattern is compiled with `re.I`, and Python's case folding also accepts a few non-ASCII letters, such as the Kelvin sign. Only ASCII letters are modelled. The `$` quirk is modelled: one trailing newline is accepted.
- A registered metric that is itself a `dict` would be walked into as a namespace. The model's tree distinguishes metrics from namespaces.
- `Timer.__init__` gives the timer a reservoir of its own that is never read. That field is not modelled; the timer's histogram holds the given reservoir.
- `Histogram` inherits `inc`/`dec` from `Counter`. The model composes a `Counter` and uses its `Inc` only.
- Metrics.EWMA.Tick: a zero interval divides by zero in the source. It is a precondition here.
- Metrics.Meter.constructor: the interval must be positive, which the source assumes without checking.
- Metrics.Context.Exit: a context that is not aborted must have been entered. The source reads `_started` only when not aborted, and without `__enter__` that read fails with an `AttributeError`.
- Metrics.Histogram.Update, Metrics.Timer.Update and Metrics.Context.Exit require that no timestamp is passed to the reservoir, because the source never passes one.
- Metrics.Histogram.constructor and Metrics.Timer.constructor follow the corrected `Choose`: a given empty reservoir is kept. The source's `reservoir or default` replaces it; `Metrics.ChooseAsWritten` and `Metrics.FreshReservoirDiscarded` model and exhibit that behaviour.
- Metrics.Meter.constructor (with `Metrics.Meter.Valid`) follows the corrected `EwmaInterval`: the EWMAs tick over the meter's interval. The source always uses 5 seconds; `Metrics.EwmaIntervalAsWritten` and `Metrics.MeterRateScaled` model and exhibit that. With the default interval of 5 seconds the two agree.
- Registries.Registry.Register follows the corrected `Insert`: registering a name that is an existing namespace fails with `DuplicateName`. The source returns silently without storing; `Registries.InsertAsWritten`, `Registries.InsertAsWrittenDiffers` and `Registries.NamespaceSwallowsMetric` model and exhibit that.
- The `EWMA` factories for 1, 5 and 15 minutes differ only in their alpha, which is a parameter of `Metrics.EWMA.constructor`.
- Counts are unbounded integers, as are Python's.
- `Meter._tick` discards the fraction of an interval left over after ticking, as the source's own comment notes. `Metrics.TickCountExamples` shows the effect; the model keeps this behaviour.
- Concurrency is not modelled: the source has no locking.

## Findings

| source | as written | input that shows it | evidently intended | confidence | as-written member | corrected member |
|---|---|---|---|---|---|---|
| caliper/metric.py:16 | `reservoir or self.default_reservoir()` tests the reservoir's truth value, and a reservoir with `__len__` 0 is false | `Histogram(SlidingWindowReservoir(10))`: the new, empty window is silently replaced by a decaying reservoir | keep any reservoir that was passed in (`is None` test) | high, not executed | Metrics.ChooseAsWritten | Metrics.Choose |
| caliper/registry.py:37-40 | a label already in the tree that is a dict is walked into even when it is the last label, so the loop ends without storing the metric and without raising | `register("a.b", m1)` then `register("a", m2)`: no error, and `m2` is stored nowhere | raise `DuplicateName` when the full name is taken, as for a metric | high, not executed | Registries.InsertAsWritten | Registries.Insert |
| caliper/metric.py:146-148, 186-201 | the meter's EWMAs are built by the 1/5/15-minute factories, which always use `EWMA.INTERVAL` (5 seconds), whatever interval the meter ticks at | `Meter(interval=10)` with 10 events in the first 10 seconds reports rate 2 per second, where 1 per second happened | the EWMAs use the meter's own interval | medium, not executed | Metrics.EwmaIntervalAsWritten | Metrics.EwmaInterval |
