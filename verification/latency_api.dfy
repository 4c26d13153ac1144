/** The statistics behind the `/api/latency` handler of `api/latency.py`:
    a percentile on pre-sorted input with a fraction `q` in [0, 1], the
    per-region metrics with an absent-value "no data" result, and the request
    assembly that cleans the region names and reports bad requests. */
module LatencyApi {

  import opened Results
  import opened Stats
  import opened Telemetry
  import opened Text
  import OrderedMap

  /** `_percentile_linear` raises `ValueError` on an empty list. */
  datatype PercentileError = EmptyInput

  /** The HTTP errors of a request: the request model rejects an empty
      region list, and the handler raises the other two. */
  datatype RequestError = EmptyRegionList | TelemetryNotLoaded | NoRegions

  /** The HTTP status code of each request error. */
  function StatusCode(e: RequestError): (code: int)
    ensures 400 <= code < 600
    ensures code == 500 <==> e == TelemetryNotLoaded
    ensures code == 422 <==> e == EmptyRegionList || e == NoRegions
  {
    match e
    case EmptyRegionList => 422
    case TelemetryNotLoaded => 500
    case NoRegions => 422
  }

  /** `max(0.0, min(1.0, q))`. */
  function Clamp01(q: real): (c: real)
    ensures 0.0 <= c <= 1.0
    ensures 0.0 <= q <= 1.0 ==> c == q
    ensures q <= 0.0 ==> c == 0.0
    ensures q >= 1.0 ==> c == 1.0
  {
    var m := if q < 1.0 then q else 1.0;
    if m > 0.0 then m else 0.0
  }

  /** The fractional rank `(n - 1) * q` of the clamped fraction. */
  function Position(n: nat, q: real): (pos: real)
    requires n >= 1
    ensures 0.0 <= pos <= (n - 1) as real
    ensures q <= 0.0 ==> pos == 0.0
    ensures q >= 1.0 ==> pos == (n - 1) as real
  {
    var c := Clamp01(q);
    MulNonneg((n - 1) as real, c);
    MulNonneg((n - 1) as real, 1.0 - c);
    (n - 1) as real * c
  }

  /** `int(math.floor(pos))`: the valid index at or just below the rank. */
  function LowerIndex(n: nat, q: real): (i: nat)
    requires n >= 1
    ensures i < n
    ensures i as real <= Position(n, q) < i as real + 1.0
  {
    Position(n, q).Floor
  }

  /** `int(math.ceil(pos))`: the valid index at or just above the rank,
      never more than one past the lower index. */
  function UpperIndex(n: nat, q: real): (i: nat)
    requires n >= 1
    ensures i < n
    ensures Position(n, q) <= i as real < Position(n, q) + 1.0
    ensures LowerIndex(n, q) <= i <= LowerIndex(n, q) + 1
    ensures i == LowerIndex(n, q) <==> LowerIndex(n, q) as real == Position(n, q)
  {
    var lo := LowerIndex(n, q);
    if lo as real == Position(n, q) then lo else lo + 1
  }

  /** The interpolation weight `pos - lower_index`. */
  function Weight(n: nat, q: real): (w: real)
    requires n >= 1
    ensures 0.0 <= w < 1.0
    ensures w == 0.0 <==> LowerIndex(n, q) == UpperIndex(n, q)
  {
    Position(n, q) - LowerIndex(n, q) as real
  }

  /** `_percentile_linear(sorted_values, q)`: an error on empty input, the
      only value of a one-element list, and otherwise a value between the two
      entries that bracket the fractional rank, exactly the entry at the rank
      when the rank is whole. The input is meant to be sorted but is not
      checked. */
  function PercentileLinear(sortedValues: seq<real>, q: real): (r: Result<real, PercentileError>)
    ensures r.Failure? <==> |sortedValues| == 0
    ensures |sortedValues| == 1 ==> r == Success(sortedValues[0])
    ensures r.Success? ==>
      Between(r.value, sortedValues[LowerIndex(|sortedValues|, q)],
                       sortedValues[UpperIndex(|sortedValues|, q)])
    ensures |sortedValues| > 0 && LowerIndex(|sortedValues|, q) as real == Position(|sortedValues|, q)
            ==> r == Success(sortedValues[LowerIndex(|sortedValues|, q)])
    ensures |sortedValues| > 0 && q <= 0.0 ==> r == Success(sortedValues[0])
    ensures |sortedValues| > 0 && q >= 1.0 ==> r == Success(sortedValues[|sortedValues| - 1])
  {
    var n := |sortedValues|;
    if n == 0 then Failure(EmptyInput)
    else if n == 1 then Success(sortedValues[0])
    else
      var lower := LowerIndex(n, q);
      var upper := UpperIndex(n, q);
      var lowerValue := sortedValues[lower];
      var upperValue := sortedValues[upper];
      if lower == upper then Success(lowerValue)
      else
        var weight := Position(n, q) - lower as real;
        LerpBetween(lowerValue, upperValue, weight);
        Success(lowerValue + (upperValue - lowerValue) * weight)
  }

  /** On sorted input the result lies between the bracketing entries in
      order, and so between the smallest and the largest entry. */
  lemma {:induction false} PercentileLinearSortedBounds(s: seq<real>, q: real)
    requires Sorted(s)
    requires |s| > 0
    ensures s[LowerIndex(|s|, q)] <= PercentileLinear(s, q).value <= s[UpperIndex(|s|, q)]
    ensures s[0] <= PercentileLinear(s, q).value <= s[|s| - 1]
  {
    var lo, hi := LowerIndex(|s|, q), UpperIndex(|s|, q);
    assert s[0] <= s[lo] <= s[hi] <= s[|s| - 1];
  }

  /** For at least two entries the result is the lower bracketing entry
      plus the weighted step to the upper one. */
  lemma {:induction false} PercentileLinearValue(s: seq<real>, q: real)
    requires |s| >= 2
    ensures PercentileLinear(s, q).value
            == s[LowerIndex(|s|, q)] + (s[UpperIndex(|s|, q)] - s[LowerIndex(|s|, q)]) * Weight(|s|, q)
  {
    var lo, hi := LowerIndex(|s|, q), UpperIndex(|s|, q);
    if lo == hi {
      assert s[hi] - s[lo] == 0.0;
    }
  }

  /** On sorted input a larger fraction never gives a smaller percentile. */
  lemma {:induction false} PercentileLinearMonotone(s: seq<real>, q1: real, q2: real)
    requires Sorted(s)
    requires |s| > 0
    requires q1 <= q2
    ensures PercentileLinear(s, q1).value <= PercentileLinear(s, q2).value
  {
    var n := |s|;
    if n >= 2 {
      var c1, c2 := Clamp01(q1), Clamp01(q2);
      MulNonneg((n - 1) as real, c2 - c1);
      assert Position(n, q1) <= Position(n, q2);
      var lo1, hi1 := LowerIndex(n, q1), UpperIndex(n, q1);
      var lo2, hi2 := LowerIndex(n, q2), UpperIndex(n, q2);
      PercentileLinearSortedBounds(s, q1);
      PercentileLinearSortedBounds(s, q2);
      if lo1 == lo2 && hi1 == lo1 + 1 {
        assert hi2 == hi1;
        PercentileLinearValue(s, q1);
        PercentileLinearValue(s, q2);
        MulNonneg(s[hi1] - s[lo1], Weight(n, q2) - Weight(n, q1));
      } else if lo1 < lo2 {
        assert s[hi1] <= s[lo2];
      }
    }
  }

  /** A region's metrics; the three averages are absent when the region has
      no records. */
  datatype Metrics = Metrics(
    avgLatency: Option<real>,
    p95Latency: Option<real>,
    avgUptime: Option<real>,
    breaches: nat,
    count: nat)

  /** The "no data" result of a region without records. */
  const NoData := Metrics(None, None, None, 0, 0)

  /** The fraction `_region_metrics` asks the percentile for. */
  const P95Fraction: real := 0.95

  /** `_region_metrics(region, threshold_ms)` over the dataset `data`. */
  function RegionMetrics(data: seq<Rec>, region: string, threshold: real): (m: Metrics)
    ensures m.count == |RowsFor(data, region)| == |RegionIndices(data, region)|
    ensures m.breaches == |BreachIndices(data, region, threshold)|
    ensures m.breaches <= m.count
    ensures m.count == 0 <==> m == NoData
    ensures m.count > 0 ==> m.avgLatency.Some? && m.p95Latency.Some? && m.avgUptime.Some?
    ensures m.count > 0 ==>
      var lats := Latencies(RowsFor(data, region));
      && Min(lats) <= m.avgLatency.value <= Max(lats)
      && Min(lats) <= m.p95Latency.value <= Max(lats)
    ensures m.count > 0 ==>
      var ups := Uptimes(RowsFor(data, region));
      Min(ups) <= m.avgUptime.value <= Max(ups)
  {
    var rows := RowsFor(data, region);
    RowsForCount(data, region);
    BreachCount(data, region, threshold);
    if |rows| == 0 then NoData
    else
      var lats := Latencies(rows);
      var ups := Uptimes(rows);
      var sortedLats := SortAsc(lats);
      var p95 := PercentileLinear(sortedLats, P95Fraction);
      SortedEnds(lats, sortedLats);
      PercentileLinearSortedBounds(sortedLats, P95Fraction);
      Metrics(Some(Mean(lats)), Some(p95.value), Some(Mean(ups)), CountAbove(lats, threshold), |rows|)
  }

  /** The metrics of a region with records, field by field. */
  lemma {:induction false} RegionMetricsValue(data: seq<Rec>, region: string, threshold: real)
    requires RowsFor(data, region) != []
    ensures
      var lats := Latencies(RowsFor(data, region));
      var ups := Uptimes(RowsFor(data, region));
      RegionMetrics(data, region, threshold)
      == Metrics(Some(Mean(lats)), Some(PercentileLinear(SortAsc(lats), P95Fraction).value),
                 Some(Mean(ups)), CountAbove(lats, threshold), |RowsFor(data, region)|)
  {
  }

  /** `[r.strip() for r in regions if r and r.strip()]`. */
  function CleanRegions(regions: seq<string>): (cleaned: seq<string>)
    ensures |cleaned| <= |regions|
    ensures forall i :: 0 <= i < |cleaned| ==> cleaned[i] != []
  {
    if |regions| == 0 then []
    else
      var n := |regions| - 1;
      var r := regions[n];
      CleanRegions(regions[..n]) + (if r != [] && Strip(r) != [] then [Strip(r)] else [])
  }

  /** The cleaned names are already stripped. */
  lemma {:induction false} CleanRegionsStripped(regions: seq<string>, i: nat)
    requires i < |CleanRegions(regions)|
    ensures Strip(CleanRegions(regions)[i]) == CleanRegions(regions)[i]
  {
    var n := |regions| - 1;
    var front := CleanRegions(regions[..n]);
    if i < |front| {
      CleanRegionsStripped(regions[..n], i);
    } else {
      StripIdempotent(regions[n]);
    }
  }

  /** Every name that is not blank contributes its stripped form. */
  lemma {:induction false} CleanRegionsKeeps(regions: seq<string>, i: nat)
    requires i < |regions|
    requires !IsBlank(regions[i])
    ensures Strip(regions[i]) in CleanRegions(regions)
  {
    var n := |regions| - 1;
    var front := CleanRegions(regions[..n]);
    var r := regions[n];
    var last := if r != [] && Strip(r) != [] then [Strip(r)] else [];
    assert CleanRegions(regions) == front + last;
    if i < n {
      assert regions[..n][i] == regions[i];
      CleanRegionsKeeps(regions[..n], i);
      assert Strip(regions[i]) in front;
    } else {
      NotBlankKept(r);
      assert last == [Strip(r)];
    }
  }

  /** A name that is not blank survives cleaning. */
  lemma {:induction false} NotBlankKept(r: string)
    requires !IsBlank(r)
    ensures r != [] && Strip(r) != []
  {
  }

  /** Every cleaned name is the stripped form of a name that is not blank;
      `i` is the position of one such name. */
  lemma {:induction false} CleanRegionsSource(regions: seq<string>, c: string) returns (i: nat)
    requires c in CleanRegions(regions)
    ensures i < |regions|
    ensures !IsBlank(regions[i]) && Strip(regions[i]) == c
  {
    var n := |regions| - 1;
    if c in CleanRegions(regions[..n]) {
      i := CleanRegionsSource(regions[..n], c);
      assert regions[..n][i] == regions[i];
    } else {
      i := n;
    }
  }

  /** Nothing is left after cleaning exactly when every name is blank. */
  lemma {:induction false} CleanRegionsEmptyIff(regions: seq<string>)
    ensures CleanRegions(regions) == [] <==> forall i :: 0 <= i < |regions| ==> IsBlank(regions[i])
  {
    if |regions| > 0 {
      var n := |regions| - 1;
      CleanRegionsEmptyIff(regions[..n]);
      assert forall i :: 0 <= i < n ==> regions[..n][i] == regions[i];
    }
  }

  /** Cleaning keeps the request's order: cleaning a concatenation cleans
      each part. */
  lemma {:induction false} CleanRegionsAppend(a: seq<string>, b: seq<string>)
    ensures CleanRegions(a + b) == CleanRegions(a) + CleanRegions(b)
  {
    if |b| == 0 {
      assert a + b == a;
    } else {
      var n := |b| - 1;
      assert (a + b)[..|a + b| - 1] == a + b[..n];
      CleanRegionsAppend(a, b[..n]);
    }
  }

  /** The handler's response: the threshold it used and the metrics of
      each region, keyed by region in insertion order. */
  datatype Response = Response(threshold: real, metrics: seq<(string, Metrics)>)

  /** `latency_metrics(body)` over the dataset `data`: an error 500 when no
      dataset is loaded, an error 422 when no region name is left after
      cleaning, and otherwise (a loaded dataset and some name that is not
      blank) a success with exactly one entry per distinct cleaned region
      holding that region's metrics; it never reports an empty request list. */
  function HandleMetrics(data: seq<Rec>, regions: seq<string>, threshold: real): (r: Result<Response, RequestError>)
    ensures r == Failure(TelemetryNotLoaded) <==> |data| == 0
    ensures r == Failure(NoRegions) <==>
              |data| > 0 && forall i :: 0 <= i < |regions| ==> IsBlank(regions[i])
    ensures r.Success? <==> |data| > 0 && exists i :: 0 <= i < |regions| && !IsBlank(regions[i])
    ensures r.Success? ==> r.value.threshold == threshold
    ensures r.Success? ==> OrderedMap.Distinct(OrderedMap.Keys(r.value.metrics))
    ensures r.Success? ==> forall k :: k in OrderedMap.Keys(r.value.metrics) <==> k in CleanRegions(regions)
  {
    if |data| == 0 then Failure(TelemetryNotLoaded)
    else
      var cleaned := CleanRegions(regions);
      CleanRegionsEmptyIff(regions);
      if |cleaned| == 0 then Failure(NoRegions)
      else Success(Response(threshold, OrderedMap.FromKeys(cleaned, region => RegionMetrics(data, region, threshold))))
  }

  /** The handler body never reports an empty request list: that error
      belongs to request validation, ahead of the handler. */
  lemma {:induction false} HandleMetricsNeverEmptyList(data: seq<Rec>, regions: seq<string>, threshold: real)
    ensures HandleMetrics(data, regions, threshold) != Failure(EmptyRegionList)
  {
  }

  /** A request to `/api/latency`: `MetricsRequest` declares `regions` with
      `min_length=1`, so an empty list is answered 422 before the handler
      runs, whatever the dataset; any other request reaches the handler. */
  function PostMetrics(data: seq<Rec>, regions: seq<string>, threshold: real): (r: Result<Response, RequestError>)
    ensures r == Failure(EmptyRegionList) <==> |regions| == 0
    ensures r.Failure? && StatusCode(r.error) == 422 <==>
              |regions| == 0 || (|data| > 0 && forall i :: 0 <= i < |regions| ==> IsBlank(regions[i]))
    ensures r.Failure? && StatusCode(r.error) == 500 <==> |regions| > 0 && |data| == 0
    ensures r.Success? ==> r == HandleMetrics(data, regions, threshold)
  {
    if |regions| == 0 then Failure(EmptyRegionList)
    else HandleMetrics(data, regions, threshold)
  }

  /** Each region in the response maps to that region's metrics. */
  lemma {:induction false} HandleMetricsValues(data: seq<Rec>, regions: seq<string>, threshold: real, region: string)
    requires HandleMetrics(data, regions, threshold).Success?
    requires region in OrderedMap.Keys(HandleMetrics(data, regions, threshold).value.metrics)
    ensures OrderedMap.Get(HandleMetrics(data, regions, threshold).value.metrics, region)
            == Some(RegionMetrics(data, region, threshold))
  {
    OrderedMap.FromKeysGet(CleanRegions(regions), r => RegionMetrics(data, r, threshold), region);
  }

  /** When the cleaned names are distinct, the response lists them in the
      order requested. */
  lemma {:induction false} HandleMetricsOrder(data: seq<Rec>, regions: seq<string>, threshold: real)
    requires |data| > 0
    requires CleanRegions(regions) != []
    requires OrderedMap.Distinct(CleanRegions(regions))
    ensures HandleMetrics(data, regions, threshold).Success?
    ensures OrderedMap.Keys(HandleMetrics(data, regions, threshold).value.metrics) == CleanRegions(regions)
  {
    OrderedMap.FromKeysOrder(CleanRegions(regions), region => RegionMetrics(data, region, threshold));
  }

  /** The response keeps each cleaned name where it first occurred, so
      names that clean to the same region appear once, at the first of them. */
  lemma {:induction false} HandleMetricsFirstOrder(data: seq<Rec>, regions: seq<string>, threshold: real)
    requires HandleMetrics(data, regions, threshold).Success?
    ensures OrderedMap.FirstOccurrenceOrder(
              OrderedMap.Keys(HandleMetrics(data, regions, threshold).value.metrics), CleanRegions(regions))
  {
    OrderedMap.FromKeysFirstOrder(CleanRegions(regions), region => RegionMetrics(data, region, threshold));
  }

  /** Names that clean to the same region are reported once, where the
      first of them stood. */
  lemma {:induction false} RepeatedRegionExample(data: seq<Rec>, threshold: real)
    requires |data| > 0
    ensures HandleMetrics(data, ["us-east", " us-east", "eu"], threshold).Success?
    ensures OrderedMap.Keys(HandleMetrics(data, ["us-east", " us-east", "eu"], threshold).value.metrics)
            == ["us-east", "eu"]
  {
    CleanedExample();
    OrderedMap.FromKeysRepeat("us-east", "eu", region => RegionMetrics(data, region, threshold));
  }

  /** Cleaning the repeated-region example keeps both spellings of
      `us-east`, stripped to the same name. */
  lemma {:induction false} CleanedExample()
    ensures CleanRegions(["us-east", " us-east", "eu"]) == ["us-east", "us-east", "eu"]
  {
    StripExamples();
    CleanThree("us-east", " us-east", "eu");
  }

  /** Cleaning three names that are non-blank after stripping. */
  lemma {:induction false} CleanThree(a: string, b: string, c: string)
    requires a != [] && b != [] && c != []
    requires Strip(a) != [] && Strip(b) != [] && Strip(c) != []
    ensures CleanRegions([a, b, c]) == [Strip(a), Strip(b), Strip(c)]
  {
    assert [a, b, c][..2] == [a, b];
    CleanTwo(a, b);
  }

  /** Cleaning two names that are non-blank after stripping. */
  lemma {:induction false} CleanTwo(a: string, b: string)
    requires a != [] && b != []
    requires Strip(a) != [] && Strip(b) != []
    ensures CleanRegions([a, b]) == [Strip(a), Strip(b)]
  {
    assert [a, b][..1] == [a];
    CleanOne(a);
  }

  /** Cleaning a single name. */
  lemma {:induction false} CleanOne(r: string)
    ensures CleanRegions([r]) == if r != [] && Strip(r) != [] then [Strip(r)] else []
  {
    assert [r][..0] == [];
  }

  /** The names of the repeated-region example, stripped. */
  lemma {:induction false} StripExamples()
    ensures Strip("us-east") == "us-east"
    ensures Strip(" us-east") == "us-east"
    ensures Strip("eu") == "eu"
  {
    assert LeadingSpaces("us-east") == 0;
    assert TrailingStart("us-east") == 7;
    assert " us-east"[1..] == "us-east";
    assert LeadingSpaces(" us-east") == 1;
    assert " us-east"[..8] == " us-east";
    assert TrailingStart(" us-east") == 8;
    assert " us-east"[1..8] == "us-east";
    assert LeadingSpaces("eu") == 0;
    assert TrailingStart("eu") == 2;
  }

  /** A region's metrics depend on the dataset only through the region's
      rows: two datasets with the same rows give the same metrics. */
  lemma {:induction false} RegionMetricsOfRows(data1: seq<Rec>, data2: seq<Rec>, region: string, threshold: real)
    requires RowsFor(data1, region) == RowsFor(data2, region)
    ensures RegionMetrics(data1, region, threshold) == RegionMetrics(data2, region, threshold)
  {
    if RowsFor(data1, region) != [] {
      RegionMetricsValue(data1, region, threshold);
      RegionMetricsValue(data2, region, threshold);
    }
  }

  /** A region's metrics depend only on that region's records: inserting
      records of other regions anywhere in the dataset leaves them unchanged. */
  lemma {:induction false} RegionMetricsIsolated(before: seq<Rec>, others: seq<Rec>, after: seq<Rec>, region: string, threshold: real)
    requires forall i :: 0 <= i < |others| ==> others[i].region != region
    ensures RegionMetrics(before + others + after, region, threshold) == RegionMetrics(before + after, region, threshold)
  {
    OtherRegionsIgnoredAnywhere(before, others, after, region);
    RegionMetricsOfRows(before + others + after, before + after, region, threshold);
  }
}
