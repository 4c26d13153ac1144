/** The telemetry store: the immutable dataset of per-request records and the
    per-region filter both handlers start from. */
module Telemetry {

  import Stats

  /** One telemetry record: its region, its latency in milliseconds and its
      uptime percentage. */
  datatype Rec = Rec(region: string, latency: real, uptime: real)

  /** The records of `data` whose region is exactly `region`, in dataset
      order (`[r for r in data if r["region"] == region]`). */
  function RowsFor(data: seq<Rec>, region: string): (rows: seq<Rec>)
    ensures |rows| <= |data|
    ensures forall i :: 0 <= i < |rows| ==> rows[i].region == region
  {
    if |data| == 0 then []
    else
      var n := |data| - 1;
      RowsFor(data[..n], region) + (if data[n].region == region then [data[n]] else [])
  }

  /** The latencies of `rows`, in order. */
  function Latencies(rows: seq<Rec>): (lats: seq<real>)
    ensures |lats| == |rows|
    ensures forall i :: 0 <= i < |rows| ==> lats[i] == rows[i].latency
  {
    seq(|rows|, i requires 0 <= i < |rows| => rows[i].latency)
  }

  /** The uptimes of `rows`, in order. */
  function Uptimes(rows: seq<Rec>): (ups: seq<real>)
    ensures |ups| == |rows|
    ensures forall i :: 0 <= i < |rows| ==> ups[i] == rows[i].uptime
  {
    seq(|rows|, i requires 0 <= i < |rows| => rows[i].uptime)
  }

  /** Taking the latencies commutes with concatenation. */
  lemma {:induction false} LatenciesAppend(a: seq<Rec>, b: seq<Rec>)
    ensures Latencies(a + b) == Latencies(a) + Latencies(b)
  {
  }

  /** Taking the uptimes commutes with concatenation. */
  lemma {:induction false} UptimesAppend(a: seq<Rec>, b: seq<Rec>)
    ensures Uptimes(a + b) == Uptimes(a) + Uptimes(b)
  {
  }

  /** Positions in the dataset of the records of `region`. */
  ghost function RegionIndices(data: seq<Rec>, region: string): set<int> {
    set i | 0 <= i < |data| && data[i].region == region
  }

  /** Positions in the dataset of the records of `region` whose latency is
      strictly above `threshold`. */
  ghost function BreachIndices(data: seq<Rec>, region: string, threshold: real): set<int> {
    set i | 0 <= i < |data| && data[i].region == region && data[i].latency > threshold
  }

  /** The rows are exactly the records of the region: each record of the
      region occurs in the rows as often as in the dataset, and no other
      record occurs at all. */
  lemma {:induction false} RowsForMultiset(data: seq<Rec>, region: string)
    ensures forall x :: multiset(RowsFor(data, region))[x]
                        == if x.region == region then multiset(data)[x] else 0
  {
    if |data| > 0 {
      var n := |data| - 1;
      RowsForMultiset(data[..n], region);
      assert data == data[..n] + [data[n]];
    }
  }

  /** A region has no rows exactly when no record of the dataset belongs to it. */
  lemma {:induction false} RowsForEmptyIff(data: seq<Rec>, region: string)
    ensures RowsFor(data, region) == [] <==> forall i :: 0 <= i < |data| ==> data[i].region != region
  {
    if |data| > 0 {
      var n := |data| - 1;
      RowsForEmptyIff(data[..n], region);
      assert forall i :: 0 <= i < n ==> data[..n][i] == data[i];
    }
  }

  /** Filtering a concatenation filters each part. */
  lemma {:induction false} RowsForAppend(a: seq<Rec>, b: seq<Rec>, region: string)
    ensures RowsFor(a + b, region) == RowsFor(a, region) + RowsFor(b, region)
  {
    if |b| == 0 {
      assert a + b == a;
    } else {
      var n := |b| - 1;
      assert (a + b)[..|a + b| - 1] == a + b[..n];
      RowsForAppend(a, b[..n], region);
    }
  }

  /** Records of other regions have no influence on a region's rows. */
  lemma {:induction false} OtherRegionsIgnored(a: seq<Rec>, b: seq<Rec>, region: string)
    requires forall i :: 0 <= i < |b| ==> b[i].region != region
    ensures RowsFor(a + b, region) == RowsFor(a, region)
  {
    RowsForAppend(a, b, region);
    RowsForEmptyIff(b, region);
    assert RowsFor(a, region) + [] == RowsFor(a, region);
  }

  /** Records of other regions inserted anywhere in the dataset have no
      influence on a region's rows. */
  lemma {:induction false} OtherRegionsIgnoredAnywhere(a: seq<Rec>, others: seq<Rec>, b: seq<Rec>, region: string)
    requires forall i :: 0 <= i < |others| ==> others[i].region != region
    ensures RowsFor(a + others + b, region) == RowsFor(a + b, region)
  {
    RowsForAppend(a + others, b, region);
    OtherRegionsIgnored(a, others, region);
    RowsForAppend(a, b, region);
  }

  /** The number of rows is the number of dataset positions of the region. */
  lemma {:induction false} RowsForCount(data: seq<Rec>, region: string)
    ensures |RowsFor(data, region)| == |RegionIndices(data, region)|
  {
    if |data| > 0 {
      var n := |data| - 1;
      var front := data[..n];
      RowsForCount(front, region);
      var extra: set<int> := if data[n].region == region then {n} else {};
      forall i | 0 <= i < |data|
        ensures i in RegionIndices(data, region) <==> i in RegionIndices(front, region) + extra
      {
        if i < n {
          assert front[i] == data[i];
        }
      }
      assert RegionIndices(data, region) == RegionIndices(front, region) + extra;
      assert n !in RegionIndices(front, region);
    }
  }

  /** Counting the region's latencies above a threshold counts exactly the
      dataset positions of that region with a latency above it. */
  lemma {:induction false} BreachCount(data: seq<Rec>, region: string, threshold: real)
    ensures Stats.CountAbove(Latencies(RowsFor(data, region)), threshold)
            == |BreachIndices(data, region, threshold)|
  {
    if |data| > 0 {
      var n := |data| - 1;
      BreachCount(data[..n], region, threshold);
      BreachCountStep(data, region, threshold);
      BreachIndicesStep(data, region, threshold);
    }
  }

  /** Whether the last record is a breach of the region. */
  predicate LastIsBreach(data: seq<Rec>, region: string, threshold: real)
    requires |data| > 0
  {
    data[|data| - 1].region == region && data[|data| - 1].latency > threshold
  }

  /** The breach count grows by one exactly when the last record is a breach. */
  lemma {:induction false} BreachCountStep(data: seq<Rec>, region: string, threshold: real)
    requires |data| > 0
    ensures Stats.CountAbove(Latencies(RowsFor(data, region)), threshold)
            == Stats.CountAbove(Latencies(RowsFor(data[..|data| - 1], region)), threshold)
               + (if LastIsBreach(data, region, threshold) then 1 else 0)
  {
    var n := |data| - 1;
    var frontLats := Latencies(RowsFor(data[..n], region));
    var last := if data[n].region == region then [data[n].latency] else [];
    assert Latencies(RowsFor(data, region)) == frontLats + last;
    Stats.CountAboveAppend(frontLats, last, threshold);
  }

  /** The breach positions grow by the last position exactly when the last
      record is a breach. */
  lemma {:induction false} BreachIndicesStep(data: seq<Rec>, region: string, threshold: real)
    requires |data| > 0
    ensures |BreachIndices(data, region, threshold)|
            == |BreachIndices(data[..|data| - 1], region, threshold)|
               + (if LastIsBreach(data, region, threshold) then 1 else 0)
  {
    var n := |data| - 1;
    var front := data[..n];
    var extra: set<int> := if LastIsBreach(data, region, threshold) then {n} else {};
    forall i | 0 <= i < |data|
      ensures i in BreachIndices(data, region, threshold)
              <==> i in BreachIndices(front, region, threshold) + extra
    {
      if i < n {
        assert front[i] == data[i];
      }
    }
    assert BreachIndices(data, region, threshold) == BreachIndices(front, region, threshold) + extra;
    assert n !in BreachIndices(front, region, threshold);
  }
}
