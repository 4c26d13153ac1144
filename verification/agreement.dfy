/** The two handlers compute the same statistics: `_percentile_linear` on
    the sorted data with `q = p / 100` and `percentile` with `p` give the
    same value for every `p`, so a region with records gets the same
    unrounded averages, 95th percentile and breach count from both; they
    differ in how they report a region without records, and in the places
    to which they round the mean uptime. */
module Agreement {

  import opened Results
  import opened Stats
  import opened Telemetry
  import LatencyApi
  import IndexApi

  /** For non-empty data, the two percentile variants agree for every `p`. */
  lemma {:induction false} PercentilesAgree(data: seq<real>, p: real)
    requires |data| > 0
    ensures LatencyApi.PercentileLinear(SortAsc(data), p / 100.0) == Success(IndexApi.Percentile(data, p))
  {
    var s := SortAsc(data);
    SortedEnds(data, s);
    if p <= 0.0 {
      assert p / 100.0 <= 0.0;
    } else if p >= 100.0 {
      assert p / 100.0 >= 1.0;
    } else {
      assert IndexApi.Percentile(data, p) == IndexApi.Interpolate(s, p);
      InterpolationsAgree(s, p);
    }
  }

  /** Strictly inside (0, 100), both variants interpolate the same
      bracketing entries with the same weight. */
  lemma {:induction false} InterpolationsAgree(s: seq<real>, p: real)
    requires |s| > 0
    requires Sorted(s)
    requires 0.0 < p < 100.0
    ensures LatencyApi.PercentileLinear(s, p / 100.0) == Success(IndexApi.Interpolate(s, p))
  {
    var n := |s|;
    if n == 1 {
      assert IndexApi.Lo(n, p) == 0 && IndexApi.Hi(n, p) == 0 && IndexApi.Frac(n, p) == 0.0;
    } else {
      InterpolationsAgreeFromTwo(s, p);
    }
  }

  /** The case of at least two entries. */
  lemma {:induction false} InterpolationsAgreeFromTwo(s: seq<real>, p: real)
    requires |s| >= 2
    requires Sorted(s)
    requires 0.0 < p < 100.0
    ensures LatencyApi.PercentileLinear(s, p / 100.0) == Success(IndexApi.Interpolate(s, p))
  {
    var n, q := |s|, p / 100.0;
    RanksAgree(n, p);
    var lo, w := IndexApi.Lo(n, p), IndexApi.Frac(n, p);
    var up := LatencyApi.UpperIndex(n, q);
    LatencyApi.PercentileLinearValue(s, q);
    var x := LatencyApi.PercentileLinear(s, q).value;
    var y := IndexApi.Interpolate(s, p);
    assert x == s[lo] + (s[up] - s[lo]) * w;
    assert y == s[lo] * (1.0 - w) + s[lo + 1] * w;
    assert up == lo + 1 || w == 0.0;
    SameInterpolation(x, y, s[lo], s[lo + 1], s[up], w);
  }

  /** The step form with the upper entry `c` and the weighted form with the
      next entry `b` give the same number when `c` is `b` or the weight is 0. */
  lemma {:induction false} SameInterpolation(x: real, y: real, a: real, b: real, c: real, w: real)
    requires x == a + (c - a) * w
    requires y == a * (1.0 - w) + b * w
    requires c == b || w == 0.0
    ensures x == y
  {
    LerpForms(a, b, w);
  }

  /** Both variants compute the same rank, lower index and weight. */
  lemma {:induction false} RanksAgree(n: nat, p: real)
    requires n >= 2
    requires 0.0 < p < 100.0
    ensures LatencyApi.Position(n, p / 100.0) == IndexApi.Rank(n, p)
    ensures LatencyApi.LowerIndex(n, p / 100.0) == IndexApi.Lo(n, p)
    ensures LatencyApi.Weight(n, p / 100.0) == IndexApi.Frac(n, p)
    ensures IndexApi.Hi(n, p) == IndexApi.Lo(n, p) + 1
  {
    assert LatencyApi.Clamp01(p / 100.0) == p / 100.0;
  }

  /** A region with records gets the same unrounded averages, 95th
      percentile and breach count from both handlers; a region without
      records gets the absent-value result from one and the all-zero result
      from the other. */
  lemma {:induction false} EntriesAgree(data: seq<Rec>, region: string, threshold: real)
    ensures RowsFor(data, region) == [] ==>
              && LatencyApi.RegionMetrics(data, region, threshold) == LatencyApi.NoData
              && IndexApi.RegionEntry(data, region, threshold) == IndexApi.ZeroEntry
    ensures RowsFor(data, region) != [] ==>
              var m := LatencyApi.RegionMetrics(data, region, threshold);
              var e := IndexApi.RegionEntry(data, region, threshold);
              && m.avgLatency == Some(e.avgLatency)
              && m.p95Latency == Some(e.p95Latency)
              && m.avgUptime == Some(e.avgUptime)
              && m.breaches == e.breaches
              && m.count == |RowsFor(data, region)|
  {
    var rows := RowsFor(data, region);
    if rows != [] {
      var lats := Latencies(rows);
      assert |lats| > 0;
      assert LatencyApi.P95Fraction == IndexApi.P95 / 100.0;
      PercentilesAgree(lats, IndexApi.P95);
    }
  }

  /** Two records of one region, with latencies `a <= b` and a threshold
      between them: the averages are the midpoints, the 95th percentile is
      95 % of the way from `a` to `b`, and one record is a breach. */
  lemma {:induction false} TwoRecordMetrics(g: string, a: real, b: real, u: real, v: real, t: real)
    requires a <= t < b
    ensures LatencyApi.RegionMetrics([Rec(g, a, u), Rec(g, b, v)], g, t)
            == LatencyApi.Metrics(Some((a + b) / 2.0), Some(a + (b - a) * 0.95), Some((u + v) / 2.0), 1, 2)
  {
    var data := [Rec(g, a, u), Rec(g, b, v)];
    TwoRows(g, a, b, u, v);
    var rows := RowsFor(data, g);
    assert Latencies(rows) == [a, b];
    assert Uptimes(rows) == [u, v];
    MetricsOfTwoRows(data, g, a, b, u, v, t);
  }

  /** A region whose rows have latencies `a <= b` and uptimes `u`, `v`. */
  lemma {:induction false} MetricsOfTwoRows(data: seq<Rec>, g: string, a: real, b: real, u: real, v: real, t: real)
    requires a <= t < b
    requires Latencies(RowsFor(data, g)) == [a, b]
    requires Uptimes(RowsFor(data, g)) == [u, v]
    ensures LatencyApi.RegionMetrics(data, g, t)
            == LatencyApi.Metrics(Some((a + b) / 2.0), Some(a + (b - a) * 0.95), Some((u + v) / 2.0), 1, 2)
  {
    assert |RowsFor(data, g)| == 2;
    LatenciesOfTwoRows(data, g, a, b, t);
    UptimeOfTwoRows(data, g, u, v, t);
  }

  /** The latency fields of a region whose rows have latencies `a <= b`. */
  lemma {:induction false} LatenciesOfTwoRows(data: seq<Rec>, g: string, a: real, b: real, t: real)
    requires a <= t < b
    requires Latencies(RowsFor(data, g)) == [a, b]
    ensures LatencyApi.RegionMetrics(data, g, t).avgLatency == Some((a + b) / 2.0)
    ensures LatencyApi.RegionMetrics(data, g, t).p95Latency == Some(a + (b - a) * 0.95)
    ensures LatencyApi.RegionMetrics(data, g, t).breaches == 1
  {
    MeanLatencyOfTwoRows(data, g, a, b, t);
    P95OfTwoRows(data, g, a, b, t);
    BreachesOfTwoRows(data, g, a, b, t);
  }

  /** The mean latency of a region whose rows have latencies `a` and `b`. */
  lemma {:induction false} MeanLatencyOfTwoRows(data: seq<Rec>, g: string, a: real, b: real, t: real)
    requires Latencies(RowsFor(data, g)) == [a, b]
    ensures LatencyApi.RegionMetrics(data, g, t).avgLatency == Some((a + b) / 2.0)
  {
    assert |RowsFor(data, g)| == 2;
    MeanOfTwo(a, b);
    AvgLatencyIs(data, g, t, (a + b) / 2.0);
  }

  /** A region with records reports the mean of its latencies. */
  lemma {:induction false} AvgLatencyIs(data: seq<Rec>, g: string, t: real, m: real)
    requires RowsFor(data, g) != []
    requires Stats.Mean(Latencies(RowsFor(data, g))) == m
    ensures LatencyApi.RegionMetrics(data, g, t).avgLatency == Some(m)
  {
    LatencyApi.RegionMetricsValue(data, g, t);
  }

  /** The 95th percentile of a region whose rows have latencies `a <= b`. */
  lemma {:induction false} P95OfTwoRows(data: seq<Rec>, g: string, a: real, b: real, t: real)
    requires a <= b
    requires Latencies(RowsFor(data, g)) == [a, b]
    ensures LatencyApi.RegionMetrics(data, g, t).p95Latency == Some(a + (b - a) * 0.95)
  {
    assert |RowsFor(data, g)| == 2;
    LatencyApi.RegionMetricsValue(data, g, t);
    SortTwo(a, b);
    TwoPointP95(a, b);
  }

  /** The breaches of a region whose rows have latencies `a <= t < b`. */
  lemma {:induction false} BreachesOfTwoRows(data: seq<Rec>, g: string, a: real, b: real, t: real)
    requires a <= t < b
    requires Latencies(RowsFor(data, g)) == [a, b]
    ensures LatencyApi.RegionMetrics(data, g, t).breaches == 1
  {
    assert |RowsFor(data, g)| == 2;
    LatencyApi.RegionMetricsValue(data, g, t);
    CountAboveTwo(a, b, t);
  }

  /** The uptime field of a region whose rows have uptimes `u` and `v`. */
  lemma {:induction false} UptimeOfTwoRows(data: seq<Rec>, g: string, u: real, v: real, t: real)
    requires Uptimes(RowsFor(data, g)) == [u, v]
    ensures LatencyApi.RegionMetrics(data, g, t).avgUptime == Some((u + v) / 2.0)
  {
    assert |RowsFor(data, g)| == 2;
    MeanOfTwo(u, v);
    AvgUptimeIs(data, g, t, (u + v) / 2.0);
  }

  /** A region with records reports the mean of its uptimes. */
  lemma {:induction false} AvgUptimeIs(data: seq<Rec>, g: string, t: real, m: real)
    requires RowsFor(data, g) != []
    requires Stats.Mean(Uptimes(RowsFor(data, g))) == m
    ensures LatencyApi.RegionMetrics(data, g, t).avgUptime == Some(m)
  {
    LatencyApi.RegionMetricsValue(data, g, t);
  }

  /** Both records of a two-record dataset of one region are its rows. */
  lemma {:induction false} TwoRows(g: string, a: real, b: real, u: real, v: real)
    ensures RowsFor([Rec(g, a, u), Rec(g, b, v)], g) == [Rec(g, a, u), Rec(g, b, v)]
  {
    var data := [Rec(g, a, u), Rec(g, b, v)];
    assert data[..1] == [data[0]];
    assert data[..1][..0] == [];
  }

  /** Two values in order are already sorted. */
  lemma {:induction false} SortTwo(a: real, b: real)
    requires a <= b
    ensures SortAsc([a, b]) == [a, b]
  {
    SortedUnique([a, b], SortAsc([a, b]));
  }

  /** The mean of two values is their midpoint. */
  lemma {:induction false} MeanOfTwo(a: real, b: real)
    ensures Mean([a, b]) == (a + b) / 2.0
  {
    assert [a, b][1..] == [b];
    assert [b][1..] == [];
    assert Sum([b]) == b + Sum([]);
    assert Sum([a, b]) == a + Sum([b]);
    assert Mean([a, b]) == Sum([a, b]) / 2.0;
  }

  /** One of two values lies above a threshold between them. */
  lemma {:induction false} CountAboveTwo(a: real, b: real, t: real)
    requires a <= t < b
    ensures CountAbove([a, b], t) == 1
  {
    assert [a, b][..1] == [a];
    assert [a][..0] == [];
  }

  /** Two `us-east` records with latencies 100 and 200 and uptimes 99.9 and
      99.5, against a threshold of 150: average latency 150, 95th percentile
      195, average uptime 99.7 and one breach, from both handlers. */
  lemma {:induction false} UsEastExample()
    ensures
      var data := [Rec("us-east", 100.0, 99.9), Rec("us-east", 200.0, 99.5)];
      && LatencyApi.RegionMetrics(data, "us-east", 150.0)
         == LatencyApi.Metrics(Some(150.0), Some(195.0), Some(99.7), 1, 2)
      && IndexApi.RegionEntry(data, "us-east", 150.0)
         == IndexApi.Entry(150.0, 195.0, 99.7, 1)
  {
    var data := [Rec("us-east", 100.0, 99.9), Rec("us-east", 200.0, 99.5)];
    TwoRecordMetrics("us-east", 100.0, 200.0, 99.9, 99.5, 150.0);
    EntriesAgree(data, "us-east", 150.0);
  }

  /** The 95th percentile of two sorted values `a <= b` is `a + 0.95 (b - a)`. */
  lemma {:induction false} TwoPointP95(a: real, b: real)
    requires a <= b
    ensures LatencyApi.PercentileLinear([a, b], LatencyApi.P95Fraction) == Success(a + (b - a) * 0.95)
  {
    var q := LatencyApi.P95Fraction;
    assert LatencyApi.Position(2, q) == 0.95;
    assert LatencyApi.LowerIndex(2, q) == 0;
    assert LatencyApi.UpperIndex(2, q) == 1;
    assert LatencyApi.Weight(2, q) == 0.95;
    LatencyApi.PercentileLinearValue([a, b], q);
  }
}
