/** The metrics registry of core/metrics.py: one abstract registry, kept in memory and in a shared SQLite table.
Floating point is modelled by reals; label sets are the sorted pairs that `_label_key` yields. */
module Metrics {
  import opened Wrappers

  type Labels = seq<(string, string)>

  datatype Series = Series(name: string, labels: Labels)

  datatype Kind = CounterKind | GaugeKind | HistogramKind

  datatype Op =
    | Counter(series: Series, amount: real)
    | Gauge(series: Series, value: real)
    | Observe(series: Series, value: real)

  function KindOf(op: Op): Kind {
    match op case Counter(_, _) => CounterKind case Gauge(_, _) => GaugeKind case Observe(_, _) => HistogramKind
  }

  const BUCKETS: seq<int> := [5, 10, 25, 50, 100, 250, 500, 1000, 2500, 5000, 10000]

  // ----- what the registry means

  function Has(h: seq<Op>, kind: Kind, s: Series): bool {
    exists op | op in h :: KindOf(op) == kind && op.series == s
  }

  /** The sum of a counter's amounts. */
  function CounterTotal(h: seq<Op>, s: Series): real {
    if h == [] then 0.0
    else
      var last := h[|h| - 1];
      CounterTotal(h[..|h| - 1], s) + if last.Counter? && last.series == s then last.amount else 0.0
  }

  /** The last value set. */
  function GaugeValue(h: seq<Op>, s: Series): real {
    if h == [] then 0.0
    else
      var last := h[|h| - 1];
      if last.Gauge? && last.series == s then last.value else GaugeValue(h[..|h| - 1], s)
  }

  function Observed(h: seq<Op>, s: Series): seq<real> {
    if h == [] then []
    else
      var last, front := h[|h| - 1], Observed(h[..|h| - 1], s);
      if last.Observe? && last.series == s then front + [last.value] else front
  }

  function Total(values: seq<real>): real {
    if values == [] then 0.0 else Total(values[..|values| - 1]) + values[|values| - 1]
  }

  /** How many observations do not exceed a bound. */
  function AtMost(values: seq<real>, bound: real): nat {
    if values == [] then 0
    else AtMost(values[..|values| - 1], bound) + if values[|values| - 1] <= bound then 1 else 0
  }

  // ----- in memory

  datatype Histogram = Histogram(sum: real, count: nat, buckets: map<int, nat>)

  datatype Memory = Memory(
    types: map<string, Kind>, counters: map<Series, real>, gauges: map<Series, real>, histograms: map<Series, Histogram>)

  const NO_MEMORY := Memory(map[], map[], map[], map[])

  function EmptyHistogram(): Histogram {
    Histogram(0.0, 0, map b | b in BUCKETS :: 0)
  }

  function WithValue(g: Histogram, value: real): Histogram {
    Histogram(g.sum + value, g.count + 1, map b | b in g.buckets :: g.buckets[b] + if value <= b as real then 1 else 0)
  }

  /** `setdefault`: the first type of a name stays. */
  function WithType(m: Memory, name: string, kind: Kind): Memory {
    if name in m.types then m else m.(types := m.types[name := kind])
  }

  function MemoryAfter(m: Memory, op: Op): Memory {
    var m', s := WithType(m, op.series.name, KindOf(op)), op.series;
    match op
    case Counter(_, amount) => m'.(counters := m.counters[s := (if s in m.counters then m.counters[s] else 0.0) + amount])
    case Gauge(_, value) => m'.(gauges := m.gauges[s := value])
    case Observe(_, value) =>
      m'.(histograms := m.histograms[s := WithValue(if s in m.histograms then m.histograms[s] else EmptyHistogram(), value)])
  }

  // ----- in the shared table

  datatype Bucket = Plain | SumOf | CountOf | Inf | Le(bound: int)

  datatype RowKey = RowKey(series: Series, bucket: Bucket)

  datatype Row = Row(kind: Kind, value: real)

  type Rows = map<RowKey, Row>

  /** INSERT ... ON CONFLICT DO UPDATE SET value = value + excluded.value. */
  function UpsertAdd(rows: Rows, k: RowKey, kind: Kind, amount: real): Rows {
    rows[k := Row(kind, (if k in rows then rows[k].value else 0.0) + amount)]
  }

  function BucketUpdates(bounds: seq<int>, value: real): seq<(Bucket, real)> {
    if bounds == [] then []
    else
      var front, last := BucketUpdates(bounds[..|bounds| - 1], value), bounds[|bounds| - 1];
      if value <= last as real then front + [(Le(last), 1.0)] else front
  }

  function Updates(value: real): seq<(Bucket, real)> {
    [(SumOf, value), (CountOf, 1.0), (Inf, 1.0)] + BucketUpdates(BUCKETS, value)
  }

  function AddAll(rows: Rows, s: Series, updates: seq<(Bucket, real)>): Rows {
    if updates == [] then rows
    else
      var last := updates[|updates| - 1];
      UpsertAdd(AddAll(rows, s, updates[..|updates| - 1]), RowKey(s, last.0), HistogramKind, last.1)
  }

  function RowsAfter(rows: Rows, op: Op): Rows {
    match op
    case Counter(s, amount) => UpsertAdd(rows, RowKey(s, Plain), CounterKind, amount)
    case Gauge(s, value) => rows[RowKey(s, Plain) := Row(GaugeKind, value)]
    case Observe(s, value) => AddAll(rows, s, Updates(value))
  }

  // ----- the registry

  class MetricsRegistry {
    const shared: bool
    var memory: Memory
    var rows: Rows

    /** Every histogram has all the buckets. */
    ghost predicate Valid()
      reads this
    {
      forall s | s in memory.histograms :: HasBuckets(memory.histograms[s])
    }

    constructor (shared: bool)
      ensures Valid() && this.shared == shared && memory == NO_MEMORY && rows == map[]
    {
      this.shared, memory, rows := shared, NO_MEMORY, map[];
    }

    /** `MetricsRegistry.counter`. */
    method RecordCounter(s: Series, amount: real)
      requires Valid()
      modifies this
      ensures Valid()
      ensures memory == MemoryAfter(old(memory), Counter(s, amount))
      ensures rows == if shared then RowsAfter(old(rows), Counter(s, amount)) else old(rows)
    {
      if shared {
        rows := UpsertAdd(rows, RowKey(s, Plain), CounterKind, amount);
      }
      var value := if s in memory.counters then memory.counters[s] else 0.0;
      memory := WithType(memory, s.name, CounterKind).(counters := memory.counters[s := value + amount]);
    }

    /** `MetricsRegistry.gauge`. */
    method RecordGauge(s: Series, value: real)
      requires Valid()
      modifies this
      ensures Valid()
      ensures memory == MemoryAfter(old(memory), Gauge(s, value))
      ensures rows == if shared then RowsAfter(old(rows), Gauge(s, value)) else old(rows)
    {
      if shared {
        rows := rows[RowKey(s, Plain) := Row(GaugeKind, value)];
      }
      memory := WithType(memory, s.name, GaugeKind).(gauges := memory.gauges[s := value]);
    }

    /** `MetricsRegistry.observe`. */
    method RecordObservation(s: Series, value: real)
      requires Valid()
      modifies this
      ensures Valid()
      ensures memory == MemoryAfter(old(memory), Observe(s, value))
      ensures rows == if shared then RowsAfter(old(rows), Observe(s, value)) else old(rows)
    {
      if shared {
        var updates := CollectUpdates(value);
        rows := ApplyUpdates(rows, s, updates);
      }
      var state := if s in memory.histograms then memory.histograms[s] else EmptyHistogram();
      var state' := AddObservation(state, value);
      memory := WithType(memory, s.name, HistogramKind).(histograms := memory.histograms[s := state']);
    }
  }

  method CollectUpdates(value: real) returns (updates: seq<(Bucket, real)>)
    ensures updates == Updates(value)
  {
    var found: seq<(Bucket, real)> := [];
    for i := 0 to |BUCKETS|
      invariant found == BucketUpdates(BUCKETS[..i], value)
    {
      assert BUCKETS[..i + 1][..i] == BUCKETS[..i];
      if value <= BUCKETS[i] as real {
        found := found + [(Le(BUCKETS[i]), 1.0)];
      }
    }
    assert BUCKETS[..|BUCKETS|] == BUCKETS;
    updates := [(SumOf, value), (CountOf, 1.0), (Inf, 1.0)] + found;
  }

  /** `executemany`. */
  method ApplyUpdates(rows: Rows, s: Series, updates: seq<(Bucket, real)>) returns (after: Rows)
    ensures after == AddAll(rows, s, updates)
  {
    after := rows;
    for i := 0 to |updates|
      invariant after == AddAll(rows, s, updates[..i])
    {
      assert updates[..i + 1][..i] == updates[..i];
      after := UpsertAdd(after, RowKey(s, updates[i].0), HistogramKind, updates[i].1);
    }
    assert updates[..|updates|] == updates;
  }

  ghost predicate HasBuckets(g: Histogram) {
    forall b :: b in g.buckets <==> b in BUCKETS
  }

  lemma BucketLoopDone(g: Histogram, value: real, buckets: map<int, nat>)
    requires HasBuckets(g)
    requires forall b :: b in buckets <==> b in BUCKETS
    requires forall j | 0 <= j < |BUCKETS| ::
      buckets[BUCKETS[j]] == g.buckets[BUCKETS[j]] + if value <= BUCKETS[j] as real then 1 else 0
    ensures buckets == WithValue(g, value).buckets
  {
    forall b | b in buckets ensures buckets[b] == WithValue(g, value).buckets[b] {
      var j :| 0 <= j < |BUCKETS| && BUCKETS[j] == b;
    }
  }

  /** The bucket loop in memory. */
  method AddObservation(g: Histogram, value: real) returns (g': Histogram)
    requires HasBuckets(g)
    ensures g' == WithValue(g, value) && HasBuckets(g')
  {
    var buckets := g.buckets;
    for i := 0 to |BUCKETS|
      invariant forall b :: b in buckets <==> b in BUCKETS
      invariant forall j | 0 <= j < |BUCKETS| ::
        buckets[BUCKETS[j]] == g.buckets[BUCKETS[j]] + if j < i && value <= BUCKETS[j] as real then 1 else 0
    {
      var b := BUCKETS[i];
      if value <= b as real {
        buckets := buckets[b := buckets[b] + 1];
      }
    }
    BucketLoopDone(g, value, buckets);
    g' := Histogram(g.sum + value, g.count + 1, buckets);
  }
}
