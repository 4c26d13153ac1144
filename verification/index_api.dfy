/** The statistics behind the `/api/latency` handler of `api/index.py`: a
    percentile on unsorted input with `p` in [0, 100], the per-region entry
    with an all-zero "no data" result, and one entry per requested region. */
module IndexApi {

  import Results
  import opened Stats
  import opened Telemetry
  import OrderedMap

  /** The fractional rank `(p / 100) * (n - 1)` for `0 < p < 100`. */
  function Rank(n: nat, p: real): (idx: real)
    requires n >= 1
    requires 0.0 < p < 100.0
    ensures 0.0 <= idx <= (n - 1) as real
    ensures n >= 2 ==> idx < (n - 1) as real
    ensures n == 1 ==> idx == 0.0
  {
    var f := p / 100.0;
    ScaledBelow((n - 1) as real, f);
    f * (n - 1) as real
  }

  /** Scaling a non-negative length by a fraction in (0, 1) stays within it,
      and strictly below it when the length is positive. */
  lemma {:induction false} ScaledBelow(m: real, f: real)
    requires 0.0 <= m
    requires 0.0 < f < 1.0
    ensures 0.0 <= f * m <= m
    ensures m > 0.0 ==> f * m < m
  {
    MulNonneg(m, f);
    MulNonneg(m, 1.0 - f);
    if m > 0.0 {
      assert m * (1.0 - f) > 0.0;
    }
  }

  /** `lo = int(idx)`: truncation, which is the floor since the rank is not
      negative; a valid index at or below the rank. */
  function Lo(n: nat, p: real): (lo: nat)
    requires n >= 1
    requires 0.0 < p < 100.0
    ensures lo < n
    ensures lo as real <= Rank(n, p) < lo as real + 1.0
    ensures n >= 2 ==> lo <= n - 2
  {
    Rank(n, p).Floor
  }

  /** `hi = min(lo + 1, n - 1)`: the next index, or the last one. */
  function Hi(n: nat, p: real): (hi: nat)
    requires n >= 1
    requires 0.0 < p < 100.0
    ensures hi < n
    ensures Lo(n, p) <= hi <= Lo(n, p) + 1
    ensures n >= 2 ==> hi == Lo(n, p) + 1
    ensures n == 1 ==> hi == 0
  {
    var lo := Lo(n, p);
    if lo + 1 < n - 1 then lo + 1 else n - 1
  }

  /** `frac = idx - lo`, the interpolation weight. */
  function Frac(n: nat, p: real): (frac: real)
    requires n >= 1
    requires 0.0 < p < 100.0
    ensures 0.0 <= frac < 1.0
    ensures n == 1 ==> frac == 0.0
  {
    Rank(n, p) - Lo(n, p) as real
  }

  /** `percentile(data, p)`: 0.0 for no data; otherwise the lowest order
      statistic for `p <= 0`, the highest for `p >= 100`, and in between a
      value between the two order statistics that bracket the rank. It
      always lies between the minimum and the maximum of the data. */
  function Percentile(data: seq<real>, p: real): (r: real)
    ensures |data| == 0 ==> r == 0.0
    ensures |data| > 0 ==> Min(data) <= r <= Max(data)
    ensures |data| > 0 && p <= 0.0 ==> r == Min(data) == SortAsc(data)[0]
    ensures |data| > 0 && p >= 100.0 ==> r == Max(data) == SortAsc(data)[|data| - 1]
    ensures |data| > 0 && 0.0 < p < 100.0 ==>
              SortAsc(data)[Lo(|data|, p)] <= r <= SortAsc(data)[Hi(|data|, p)]
  {
    if |data| == 0 then 0.0
    else
      SortedEnds(data, SortAsc(data));
      if p <= 0.0 then Min(data)
      else if p >= 100.0 then Max(data)
      else Interpolate(SortAsc(data), p)
  }

  /** `sorted_data[lo] * (1 - frac) + sorted_data[hi] * frac`: on sorted
      data, a value between the two bracketing order statistics. */
  function Interpolate(sortedData: seq<real>, p: real): (r: real)
    requires |sortedData| > 0
    requires 0.0 < p < 100.0
    requires Sorted(sortedData)
    ensures sortedData[Lo(|sortedData|, p)] <= r <= sortedData[Hi(|sortedData|, p)]
  {
    var n := |sortedData|;
    var lo, hi, frac := Lo(n, p), Hi(n, p), Frac(n, p);
    WeightedBetween(sortedData[lo], sortedData[hi], frac);
    sortedData[lo] * (1.0 - frac) + sortedData[hi] * frac
  }

  /** A one-element list has that element as every percentile. */
  lemma {:induction false} PercentileSingleton(x: real, p: real)
    ensures Percentile([x], p) == x
  {
    var s := SortAsc([x]);
    assert s[0] in multiset(s);
    assert s == [x];
  }

  /** The median of four sorted values interpolates halfway between the
      middle two. */
  lemma {:induction false} PercentileMedianOfFour(data: seq<real>)
    requires |data| == 4
    requires Sorted(data)
    ensures Percentile(data, 50.0) == (data[1] + data[2]) / 2.0
  {
    SortedUnique(data, SortAsc(data));
    assert Percentile(data, 50.0) == Interpolate(SortAsc(data), 50.0);
    InterpolateMedianOfFour(data);
  }

  /** The rank of the median of four values is 1.5. */
  lemma {:induction false} MedianRankOfFour()
    ensures Lo(4, 50.0) == 1 && Hi(4, 50.0) == 2 && Frac(4, 50.0) == 0.5
  {
    assert Rank(4, 50.0) == 1.5;
  }

  /** Interpolating the median of four sorted values. */
  lemma {:induction false} InterpolateMedianOfFour(data: seq<real>)
    requires |data| == 4
    requires Sorted(data)
    ensures Interpolate(data, 50.0) == (data[1] + data[2]) / 2.0
  {
    MedianRankOfFour();
  }

  /** The median of 1, 2, 3, 4 is 2.5. */
  lemma {:induction false} PercentileMidpoint()
    ensures Percentile([1.0, 2.0, 3.0, 4.0], 50.0) == 2.5
  {
    PercentileMedianOfFour([1.0, 2.0, 3.0, 4.0]);
  }

  /** A region's entry. */
  datatype Entry = Entry(avgLatency: real, p95Latency: real, avgUptime: real, breaches: nat)

  /** The entry of a region without records. */
  const ZeroEntry := Entry(0.0, 0.0, 0.0, 0)

  /** The percentile the handler asks for. */
  const P95: real := 95.0

  /** The loop body of `latency(req)` for one region over the dataset `data`. */
  function RegionEntry(data: seq<Rec>, region: string, threshold: real): (e: Entry)
    ensures |RegionIndices(data, region)| == 0 ==> e == ZeroEntry
    ensures e.breaches == |BreachIndices(data, region, threshold)|
    ensures e.breaches <= |RegionIndices(data, region)|
    ensures RowsFor(data, region) != [] ==>
      var lats := Latencies(RowsFor(data, region));
      && Min(lats) <= e.avgLatency <= Max(lats)
      && Min(lats) <= e.p95Latency <= Max(lats)
    ensures RowsFor(data, region) != [] ==>
      var ups := Uptimes(RowsFor(data, region));
      Min(ups) <= e.avgUptime <= Max(ups)
  {
    var rows := RowsFor(data, region);
    RowsForCount(data, region);
    BreachCount(data, region, threshold);
    if |rows| == 0 then ZeroEntry
    else
      var lat := Latencies(rows);
      var up := Uptimes(rows);
      Entry(Mean(lat), Percentile(lat, P95), Mean(up), CountAbove(lat, threshold))
  }

  /** The handler's response: one entry per requested region, keyed by
      region in insertion order. */
  datatype Response = Response(metrics: seq<(string, Entry)>)

  /** `latency(req)` over the dataset `data`: exactly one entry per distinct
      requested region, each computed from that region's records alone. An
      empty request gives an empty response. */
  function Latency(data: seq<Rec>, regions: seq<string>, threshold: real): (r: Response)
    ensures OrderedMap.Distinct(OrderedMap.Keys(r.metrics))
    ensures forall k :: k in OrderedMap.Keys(r.metrics) <==> k in regions
    ensures regions == [] ==> r.metrics == []
  {
    Response(OrderedMap.FromKeys(regions, region => RegionEntry(data, region, threshold)))
  }

  /** Each requested region maps to that region's entry. */
  lemma {:induction false} LatencyValues(data: seq<Rec>, regions: seq<string>, threshold: real, region: string)
    requires region in regions
    ensures OrderedMap.Get(Latency(data, regions, threshold).metrics, region)
            == Results.Some(RegionEntry(data, region, threshold))
  {
    OrderedMap.FromKeysGet(regions, r => RegionEntry(data, r, threshold), region);
  }

  /** When the requested regions are distinct, the response lists them in
      the order requested. */
  lemma {:induction false} LatencyOrder(data: seq<Rec>, regions: seq<string>, threshold: real)
    requires OrderedMap.Distinct(regions)
    ensures OrderedMap.Keys(Latency(data, regions, threshold).metrics) == regions
  {
    OrderedMap.FromKeysOrder(regions, region => RegionEntry(data, region, threshold));
  }

  /** The response keeps each region where it was first requested: a
      repeated region is reassigned in place. */
  lemma {:induction false} LatencyFirstOrder(data: seq<Rec>, regions: seq<string>, threshold: real)
    ensures OrderedMap.FirstOccurrenceOrder(OrderedMap.Keys(Latency(data, regions, threshold).metrics), regions)
  {
    OrderedMap.FromKeysFirstOrder(regions, region => RegionEntry(data, region, threshold));
  }

  /** A region's entry depends on the dataset only through the region's
      rows: two datasets with the same rows give the same entry. */
  lemma {:induction false} RegionEntryOfRows(data1: seq<Rec>, data2: seq<Rec>, region: string, threshold: real)
    requires RowsFor(data1, region) == RowsFor(data2, region)
    ensures RegionEntry(data1, region, threshold) == RegionEntry(data2, region, threshold)
  {
  }

  /** A region's entry depends only on that region's records: inserting
      records of other regions anywhere in the dataset leaves it unchanged. */
  lemma {:induction false} RegionEntryIsolated(before: seq<Rec>, others: seq<Rec>, after: seq<Rec>, region: string, threshold: real)
    requires forall i :: 0 <= i < |others| ==> others[i].region != region
    ensures RegionEntry(before + others + after, region, threshold) == RegionEntry(before + after, region, threshold)
  {
    OtherRegionsIgnoredAnywhere(before, others, after, region);
    RegionEntryOfRows(before + others + after, before + after, region, threshold);
  }
}
