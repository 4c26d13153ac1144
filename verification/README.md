# Region latency metrics, in Dafny

This project models the statistics core of a small latency-metrics service.
The service reads a fixed telemetry dataset of per-request records. Each
record holds a region, a latency in milliseconds and an uptime percentage.
For each region a request names, the service reports:

- the mean latency;
- the 95th-percentile latency, by linear interpolation between order statistics;
- the mean uptime;
- the number of breaches, meaning latencies strictly above a threshold.

The repository has two handlers for this, and both are modelled:

- `api/latency.py` (module `LatencyApi`):
  - `_percentile_linear` works on pre-sorted input with a fraction `q` that it clamps to [0, 1].
  - `_region_metrics` reports absent averages and a zero count for a region without records.
  - `latency_metrics` answers 500 when no dataset is loaded. It strips the region names and drops blank ones. If no name is left, it answers 422.
- `api/index.py` (module `IndexApi`):
  - `percentile` takes unsorted input and `p` in [0, 100], and treats both ends specially.
  - The per-region loop of `latency` reports an all-zero entry for a region without records.

Supporting modules:

- `Results`: `Option` and `Result`.
- `Stats`: Python's `sorted`, `min`, `max`, `statistics.mean`, and the breach count `sum(1 for v in xs if v > t)`.
- `Telemetry`: the record type and the per-region filter.
- `Text`: `str.strip()` with Python's whitespace set.
- `OrderedMap`: Python's insertion-ordered `dict`, built by a dict comprehension.
- `Agreement`: relates the two handlers. For non-empty data the two percentile variants give the same value for every `p`. So a region with records gets the same unrounded numbers from both handlers.

Every number is a Dafny `real`. `math.floor(pos)` and `int(idx)` become
`.Floor`, which is exact because both ranks are non-negative. `math.ceil`
is the floor, plus one when the rank is not whole. The dataset and the
request are parameters of the handlers.

## Model

| member | source | states |
|---|---|---|
| Stats.SortAsc | api/index.py:38 | `sorted` returns an ascending permutation of its input: sorted, the same multiset, the same length |
| Stats.Min | api/index.py:34 | `min` of a non-empty list is one of its elements and at most every element |
| Stats.Max | api/index.py:36 | `max` of a non-empty list is one of its elements and at least every element |
| Stats.SortedEnds | api/index.py:33-38 | the first and last entries of any ascending permutation are the minimum and the maximum |
| Stats.SortedUnique | api/latency.py:83 | two ascending permutations of the same multiset are equal, so the sorted list is determined by the data |
| Stats.Sum | api/latency.py:85 | the summation inside `statistics.mean`: a one-element list sums to its element |
| Stats.SumAppend | api/index.py:71 | the sum of a concatenation is the sum of the parts' sums, however the list is split |
| Stats.SumBounds | api/latency.py:85 | when every entry lies between `lo` and `hi`, the sum lies between the length times `lo` and the length times `hi` |
| Stats.Mean | api/latency.py:85 | `statistics.mean` of a non-empty list lies between its minimum and maximum |
| Stats.AverageBounds | api/latency.py:85 | the sum of a non-empty list divided by its length lies within any bounds that hold for every entry |
| Stats.MeanOfConstant | api/latency.py:87 | the mean of a list whose entries all equal `c` is `c` |
| Stats.CountAbove | api/latency.py:88 | the breach count `sum(1 for v in latencies if v > threshold_ms)` never exceeds the number of values |
| Stats.CountAboveIsCardinality | api/latency.py:88 | the breach count equals the number of positions holding a value strictly above the threshold |
| Stats.CountAboveZeroIff | api/latency.py:88 | the count is zero exactly when every value is at most the threshold, so a value equal to the threshold is never counted |
| Stats.CountAboveAllIff | api/latency.py:88 | the count equals the length exactly when every value is strictly above the threshold |
| Stats.CountAboveAntitone | api/index.py:74 | raising the threshold never increases the breach count |
| Stats.CountAboveAppend | api/index.py:74 | the count over a concatenation is the sum of the counts over the parts |
| Telemetry.RowsFor | api/latency.py:70 | the filtered rows are no more than the dataset, and every row belongs to the requested region |
| Telemetry.Latencies | api/latency.py:80 | one latency per row, each the row's own `latency_ms`, in row order |
| Telemetry.Uptimes | api/latency.py:81 | one uptime per row, each the row's own `uptime_pct`, in row order |
| Telemetry.LatenciesAppend | api/index.py:67 | the latencies of concatenated rows are the two parts' latencies, concatenated |
| Telemetry.UptimesAppend | api/index.py:68 | the uptimes of concatenated rows are the two parts' uptimes, concatenated |
| Telemetry.RowsForMultiset | api/latency.py:70 | each record of the region occurs among the rows as often as in the dataset, and no record of another region occurs |
| Telemetry.RowsForEmptyIff | api/latency.py:70-71 | a region has no rows exactly when no record of the dataset belongs to it |
| Telemetry.RowsForAppend | api/index.py:56 | filtering a concatenation filters each part, keeping dataset order |
| Telemetry.OtherRegionsIgnored | api/index.py:56 | appending records of other regions leaves a region's rows unchanged |
| Telemetry.OtherRegionsIgnoredAnywhere | api/index.py:56 | inserting records of other regions anywhere in the dataset leaves a region's rows unchanged |
| Telemetry.RowsForCount | api/latency.py:95 | the row count equals the number of dataset positions whose region equals the requested one |
| Telemetry.BreachCount | api/latency.py:88 | the breach count over the region's latencies equals the number of dataset positions of that region with latency strictly above the threshold |
| Text.IsSpace | api/latency.py:105 | the whitespace test that `str.strip()` uses accepts nothing outside U+0009 to U+3000 |
| Text.IsSpaceCodes | api/latency.py:105 | the whitespace test accepts exactly the 29 code points of Python's `str.isspace`, listed one by one |
| Text.Strip | api/latency.py:105 | the stripped name is no longer than the original, and is empty exactly when the original is all whitespace |
| Text.StripTrims | api/latency.py:105 | the stripped name is the original less whitespace at both ends, and a non-empty result neither starts nor ends with whitespace |
| Text.StripIdempotent | api/latency.py:105 | stripping a stripped name changes nothing |
| OrderedMap.Get | api/latency.py:111 | a lookup succeeds exactly when the key is present |
| OrderedMap.Put | api/index.py:59 | assigning to a present key keeps the key order; assigning to an absent key appends it; afterwards the key maps to the new value |
| OrderedMap.PutOther | api/index.py:70 | assigning to one key leaves every other key's value unchanged |
| OrderedMap.FromKeys | api/latency.py:111 | a dict comprehension has distinct keys, exactly the requested ones, and no more entries than requests |
| OrderedMap.FromKeysGet | api/latency.py:111 | in a dict comprehension each requested key maps to the value computed for it, so a later duplicate overwrites an equal value |
| OrderedMap.FromKeysOrder | api/latency.py:111 | when the requested keys are distinct, the dict lists them in the order requested (the general case is `FromKeysFirstOrder`) |
| OrderedMap.FirstIndex | api/latency.py:111 | the position of a key's first occurrence holds that key, and no earlier position does |
| OrderedMap.FromKeysFirstOrder | api/latency.py:111 | for any requested keys, repeated or not, the dict lists each requested key once, in the order of its first occurrence in the request |
| OrderedMap.FromKeysRepeat | api/index.py:55-59 | requesting `x, x, y` gives the keys `x, y`: a repeated key keeps its first position |
| LatencyApi.StatusCode | api/latency.py:102-107 | a missing dataset is reported as 500; an empty request list or an empty cleaned region list is reported as 422; no other error gets either code |
| LatencyApi.Clamp01 | api/latency.py:55 | the clamped fraction lies in [0, 1]; it is unchanged inside, 0 at or below 0, and 1 at or above 1 |
| LatencyApi.Position | api/latency.py:56 | the rank lies in [0, n-1]; it is 0 for `q <= 0` and n-1 for `q >= 1` |
| LatencyApi.LowerIndex | api/latency.py:57 | the lower index is a valid index, and it is the floor of the rank |
| LatencyApi.UpperIndex | api/latency.py:58 | the upper index is a valid index and the ceiling of the rank. It is at least the lower index and at most one more, and equals it exactly when the rank is whole |
| LatencyApi.Weight | api/latency.py:65 | the weight lies in [0, 1), and is 0 exactly when the two indices coincide |
| LatencyApi.PercentileLinear | api/latency.py:43-66 | empty input, and only empty input, is an error. One value is returned for any `q`. Otherwise the result lies between the two bracketing entries, and is the entry at the rank when the rank is whole. `q <= 0` gives the first entry and `q >= 1` the last |
| LatencyApi.PercentileLinearSortedBounds | api/latency.py:60-66 | on sorted input the result lies between the lower and the upper bracketing entry in order, and so between the first and the last entry |
| LatencyApi.PercentileLinearValue | api/latency.py:60-66 | for at least two entries the result is the lower entry plus the weighted step to the upper entry, including when the two coincide |
| LatencyApi.PercentileLinearMonotone | api/latency.py:55-66 | on sorted input a larger fraction never gives a smaller percentile |
| LatencyApi.RegionMetrics | api/latency.py:69-96 | the count is the number of records of the region, and the breaches are the number of those strictly above the threshold, at most the count. A region without records, and only such a region, gets the absent-value result. Otherwise all three averages are present and lie between the minimum and maximum of their values |
| LatencyApi.CleanRegions | api/latency.py:105 | cleaning never adds names, and no cleaned name is empty |
| LatencyApi.CleanRegionsStripped | api/latency.py:105 | every cleaned name is already stripped |
| LatencyApi.CleanRegionsKeeps | api/latency.py:105 | every requested name that is not blank contributes its stripped form |
| LatencyApi.CleanRegionsSource | api/latency.py:105 | every cleaned name is the stripped form of some requested name that is not blank |
| LatencyApi.CleanRegionsEmptyIff | api/latency.py:105-107 | nothing is left after cleaning exactly when every requested name is blank |
| LatencyApi.CleanRegionsAppend | api/latency.py:105 | cleaning keeps the request's order: cleaning a concatenation cleans each part |
| LatencyApi.HandleMetrics | api/latency.py:101-115 | the dataset-not-loaded error occurs exactly when the dataset is empty. The no-regions error occurs exactly when the dataset is loaded and every requested name is blank. The handler succeeds exactly when the dataset is loaded and some requested name is not blank, so it never reports an empty request list. A success echoes the threshold and has one key for each distinct cleaned region and no other key |
| LatencyApi.HandleMetricsNeverEmptyList | api/latency.py:101-115 | the handler body never answers with the empty-request-list error, which only request validation raises |
| LatencyApi.HandleMetricsValues | api/latency.py:111 | each region in the response maps to that region's metrics |
| LatencyApi.HandleMetricsOrder | api/latency.py:111 | when the cleaned names are distinct the response lists them in request order (the general case is `HandleMetricsFirstOrder`) |
| LatencyApi.HandleMetricsFirstOrder | api/latency.py:105-111 | the response lists each cleaned name once, in the order of its first occurrence among the cleaned names |
| LatencyApi.PostMetrics | api/latency.py:24-26 | an empty request list is rejected with 422 before anything else, whatever the dataset. Otherwise a loaded dataset whose request is all blank also gets 422; an empty dataset gets 500; every success is the handler's response |
| LatencyApi.RepeatedRegionExample | api/latency.py:105-111 | requesting `us-east`, ` us-east` and `eu` on a loaded dataset succeeds with exactly the keys `us-east`, `eu` |
| LatencyApi.CleanedExample | api/latency.py:105 | cleaning `us-east`, ` us-east`, `eu` gives `us-east`, `us-east`, `eu` |
| LatencyApi.CleanThree | api/latency.py:105 | three names that stay non-blank after stripping clean to their stripped forms, in order |
| LatencyApi.RegionMetricsOfRows | api/latency.py:70-96 | two datasets with the same rows for a region give that region the same metrics |
| LatencyApi.RegionMetricsIsolated | api/latency.py:70 | records of other regions, inserted anywhere in the dataset, do not change a region's metrics |
| IndexApi.Rank | api/index.py:39 | for `0 < p < 100` the rank lies in [0, n-1], strictly below n-1 for two or more entries, and is 0 for one entry |
| IndexApi.Lo | api/index.py:40 | `int(idx)` is a valid index, the floor of the rank, and never the last index when there are two or more entries |
| IndexApi.Hi | api/index.py:41 | `hi` is a valid index at `lo` or `lo + 1`: it is `lo + 1` for two or more entries and 0 for one |
| IndexApi.Frac | api/index.py:42 | the weight lies in [0, 1), and is 0 for one entry |
| IndexApi.Percentile | api/index.py:30-43 | empty data gives 0.0. Otherwise the result lies between the minimum and the maximum. `p <= 0` gives the smallest value and `p >= 100` the largest. In between, the result lies between the sorted entries at `lo` and `hi` |
| IndexApi.Interpolate | api/index.py:38-43 | on sorted data, the convex combination lies between the entries at `lo` and `hi` |
| IndexApi.PercentileSingleton | api/index.py:30-43 | one value is every percentile of a one-element list |
| IndexApi.PercentileMedianOfFour | api/index.py:38-43 | the 50th percentile of four sorted values is halfway between the middle two |
| IndexApi.PercentileMidpoint | api/index.py:30-43 | the 50th percentile of 1, 2, 3, 4 is 2.5 |
| IndexApi.RegionEntry | api/index.py:55-75 | a region without records gets the all-zero entry. The breaches are the number of the region's records strictly above the threshold, at most the row count. The averages and the 95th percentile lie between the minimum and maximum of their values |
| IndexApi.Latency | api/index.py:52-77 | the response has one key for each distinct requested region and no other key; an empty request gives an empty response |
| IndexApi.LatencyValues | api/index.py:55-75 | each requested region maps to its own entry |
| IndexApi.LatencyOrder | api/index.py:53-59 | when the requested regions are distinct, the response lists them in request order (the general case is `LatencyFirstOrder`) |
| IndexApi.LatencyFirstOrder | api/index.py:53-70 | the response lists each requested region once, in the order of its first occurrence in the request |
| IndexApi.RegionEntryOfRows | api/index.py:56-75 | two datasets with the same rows for a region give that region the same entry |
| IndexApi.RegionEntryIsolated | api/index.py:56 | records of other regions, inserted anywhere in the dataset, do not change a region's entry |
| Agreement.PercentilesAgree | api/index.py:30-43 | for non-empty data and every `p`, `_percentile_linear` on the sorted data at `p / 100` succeeds with the value `percentile` computes |
| Agreement.InterpolationsAgree | api/latency.py:60-66 | strictly inside (0, 100), the two interpolation formulas give the same number on sorted data |
| Agreement.RanksAgree | api/latency.py:56-65 | for two or more entries both handlers compute the same rank, lower index and weight, and the upper index is the next one |
| Agreement.EntriesAgree | api/index.py:58-75 | a region with records gets the same unrounded averages, 95th percentile and breaches from both handlers. A region without records gets the absent-value result from one and the all-zero entry from the other |
| Agreement.TwoRecordMetrics | api/latency.py:80-95 | for two records of one region, with latencies `a <= b` and the threshold between them: the mean latency is the midpoint, the 95th percentile is 95 % of the way from `a` to `b`, the mean uptime is the midpoint, and one of the two records breaches |
| Agreement.TwoPointP95 | api/latency.py:86 | the 95th percentile of two sorted values `a <= b` is `a + 0.95 (b - a)` |
| Agreement.UsEastExample | api/latency.py:69-96 | two records with latencies 100 and 200 and uptimes 99.9 and 99.5, against threshold 150, give mean 150, 95th percentile 195, mean uptime 99.7 and one breach from both handlers |

## Left out

- HTTP plumbing is not modelled: the FastAPI apps, routes, CORS middleware and preflight handler. Errors become `Result` values, and `StatusCode` gives the status each one maps to.
- The `min_length=1` on `MetricsRequest.regions` (api/latency.py:25) is modelled by `LatencyApi.PostMetrics`: an empty list gets 422 before the dataset is looked at, so an empty list against an empty dataset gets 422, not 500. `LatencyApi.HandleMetrics` alone models the handler body and answers 500 for that input. The rest of pydantic's validation is not modelled: element and threshold types, and the conversion of the threshold to a number.
- Loading the dataset is not modelled: file access, JSON parsing and the fallback to an empty dataset. The dataset is a parameter. In `api/index.py` a missing file stops the module loading, which is outside the model.
- Records are typed, so a record always has a region, a latency and an uptime. The difference between `r.get("region")` and `r["region"]` on a record without a region is not modelled.
- `round(..., 2)` and `round(..., 3)` on the reported values are not modelled: the model reports the unrounded real values. Binary floating point, `float()` conversions, NaN and infinities are not modelled; every number is a real.
- Python's `sorted` on floats with NaN is not modelled; the model sorts reals.
- Stats.Sum: its own contract states only the one-element case. Additivity is `Stats.SumAppend`, and the bounds used by the mean are `Stats.SumBounds`.
- Stats.CountAbove: its own contract bounds the count by the length. Which values it counts is stated by `Stats.CountAboveIsCardinality`, `CountAboveZeroIff` and `CountAboveAllIff`.
- Text.IsSpace: its own contract only bounds the range. The exact set of code points is `Text.IsSpaceCodes`; stating it on the predicate itself makes every proof about stripping much more expensive.
- LatencyApi.PercentileLinear: the ascending order of its input is not a precondition, because the source does not check it. The bounds stated without sortedness are `Between` the two bracketing entries in either order. The ordered bounds need `Sorted`.
- LatencyApi.RegionMetrics: the contract fixes the count and the breaches exactly, but only bounds the three averages by the minimum and maximum of their values. The exact values come from `Stats.Mean` and `LatencyApi.PercentileLinear`, which the body applies to the region's latencies and uptimes. `Agreement.UsEastExample` pins them down on concrete data.
- IndexApi.RegionEntry: the contract likewise bounds the averages and the 95th percentile rather than restating `Stats.Mean` and `IndexApi.Percentile`. `Agreement.EntriesAgree` ties them to the values of `LatencyApi.RegionMetrics`.
- IndexApi.Latency: the request may name no region. `MetricsRequest` in api/latency.py:25 requires at least one region, but `LatencyRequest` in api/index.py:26 declares no minimum length, so that handler returns an empty `metrics` object. The model follows each file as written.
- The two handlers report a region without records differently: absent values and a count in `api/latency.py`, zeros and no count in `api/index.py`. Both are modelled as written.
