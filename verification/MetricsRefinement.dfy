/** Both back ends of the metrics registry refine one abstract registry. */
module MetricsRefinement {
  import opened Wrappers
  import opened Metrics

  function MemoryOf(h: seq<Op>): Memory {
    if h == [] then NO_MEMORY else MemoryAfter(MemoryOf(h[..|h| - 1]), h[|h| - 1])
  }

  function TableOf(h: seq<Op>): Rows {
    if h == [] then map[] else RowsAfter(TableOf(h[..|h| - 1]), h[|h| - 1])
  }

  /** The history uses a type on a metric name. */
  ghost predicate Uses(h: seq<Op>, name: string, kind: Kind) {
    exists op :: op in h && op.series.name == name && KindOf(op) == kind
  }

  /** It uses one type on the name. */
  ghost predicate OneTypeFor(h: seq<Op>, name: string) {
    forall a, b | a in h && b in h && a.series.name == name && b.series.name == name :: KindOf(a) == KindOf(b)
  }

  // ----- samples

  /** A rendered sample: the value of a counter or gauge, or one line of a histogram. */
  datatype Sample = Value(series: Series) | HistogramLine(series: Series, line: Line)

  datatype Line = LeLine(bound: int) | InfLine | CountLine | SumLine

  ghost predicate IsLine(line: Line) {
    line.LeLine? ==> line.bound in BUCKETS
  }

  /** What a sample means. */
  ghost function Meaning(h: seq<Op>, x: Sample): Option<real> {
    match x
    case Value(s) =>
      if Has(h, CounterKind, s) then Some(CounterTotal(h, s))
      else if Has(h, GaugeKind, s) then Some(GaugeValue(h, s))
      else None
    case HistogramLine(s, line) =>
      if Observed(h, s) == [] then None else Some(LineValue(Observed(h, s), line))
  }

  function LineValue(values: seq<real>, line: Line): real {
    match line
    case LeLine(b) => AtMost(values, b as real) as real
    case InfLine => |values| as real
    case CountLine => |values| as real
    case SumLine => Total(values)
  }

  /** Histogram buckets are cumulative, and the last one counts everything. */
  lemma {:induction false} BucketsCumulative(values: seq<real>, a: real, b: real)
    requires a <= b
    ensures AtMost(values, a) <= AtMost(values, b) <= |values|
  {
    if values != [] {
      BucketsCumulative(values[..|values| - 1], a, b);
    }
  }

  // ----- rendering from memory

  function MemorySample(m: Memory, x: Sample): Option<real> {
    var name := x.series.name;
    if name !in m.types then None
    else
      match x
      case Value(s) =>
        if m.types[name] == CounterKind && s in m.counters then Some(m.counters[s])
        else if m.types[name] == GaugeKind && s in m.gauges then Some(m.gauges[s])
        else None
      case HistogramLine(s, line) =>
        if m.types[name] == HistogramKind && s in m.histograms then MemoryLine(m.histograms[s], line) else None
  }

  function MemoryLine(g: Histogram, line: Line): Option<real> {
    match line
    case LeLine(b) => if b in g.buckets then Some(g.buckets[b] as real) else None
    case InfLine => Some(g.count as real)
    case CountLine => Some(g.count as real)
    case SumLine => Some(g.sum)
  }

  ghost predicate HistogramIs(g: Histogram, values: seq<real>) {
    && g.sum == Total(values) && g.count == |values|
    && (forall b :: b in g.buckets <==> b in BUCKETS)
    && (forall b | b in g.buckets :: g.buckets[b] == AtMost(values, b as real))
  }

  ghost predicate CountersAre(m: Memory, h: seq<Op>, s: Series) {
    (s in m.counters <==> Has(h, CounterKind, s)) && (s in m.counters ==> m.counters[s] == CounterTotal(h, s))
  }

  ghost predicate GaugesAre(m: Memory, h: seq<Op>, s: Series) {
    (s in m.gauges <==> Has(h, GaugeKind, s)) && (s in m.gauges ==> m.gauges[s] == GaugeValue(h, s))
  }

  ghost predicate HistogramsAre(m: Memory, h: seq<Op>, s: Series) {
    (s in m.histograms <==> Observed(h, s) != []) && (s in m.histograms ==> HistogramIs(m.histograms[s], Observed(h, s)))
  }

  lemma HasGrows(h: seq<Op>, op: Op, kind: Kind, s: Series)
    ensures Has(h + [op], kind, s) <==> Has(h, kind, s) || (KindOf(op) == kind && op.series == s)
  {
  }

  lemma {:induction false} NoCounterNoTotal(h: seq<Op>, s: Series)
    requires !Has(h, CounterKind, s)
    ensures CounterTotal(h, s) == 0.0
  {
    if h != [] {
      assert h == h[..|h| - 1] + [h[|h| - 1]];
      HasGrows(h[..|h| - 1], h[|h| - 1], CounterKind, s);
      NoCounterNoTotal(h[..|h| - 1], s);
    }
  }

  lemma WithValueIs(g: Histogram, values: seq<real>, value: real)
    requires HistogramIs(g, values)
    ensures HistogramIs(WithValue(g, value), values + [value])
  {
  }

  lemma NewHistogram()
    ensures HistogramIs(EmptyHistogram(), [])
  {
  }

  lemma {:induction false} CountersRefine(h: seq<Op>, s: Series)
    ensures CountersAre(MemoryOf(h), h, s)
  {
    if h != [] {
      var front, op := h[..|h| - 1], h[|h| - 1];
      assert h == front + [op];
      CountersRefine(front, s);
      HasGrows(front, op, CounterKind, s);
      if !Has(front, CounterKind, s) { NoCounterNoTotal(front, s); }
    }
  }

  lemma {:induction false} GaugesRefine(h: seq<Op>, s: Series)
    ensures GaugesAre(MemoryOf(h), h, s)
  {
    if h != [] {
      var front, op := h[..|h| - 1], h[|h| - 1];
      assert h == front + [op];
      GaugesRefine(front, s);
      HasGrows(front, op, GaugeKind, s);
    }
  }

  lemma {:induction false} HistogramsRefine(h: seq<Op>, s: Series)
    ensures HistogramsAre(MemoryOf(h), h, s)
  {
    if h != [] {
      var front, op := h[..|h| - 1], h[|h| - 1];
      HistogramsRefine(front, s);
      if op.Observe? && op.series == s {
        NewHistogram();
        var g := if s in MemoryOf(front).histograms then MemoryOf(front).histograms[s] else EmptyHistogram();
        WithValueIs(g, Observed(front, s), op.value);
      }
    }
  }

  /** In memory every series is what its history says, whatever the types. */
  lemma MemoryRefines(h: seq<Op>, s: Series)
    ensures CountersAre(MemoryOf(h), h, s) && GaugesAre(MemoryOf(h), h, s) && HistogramsAre(MemoryOf(h), h, s)
  {
    CountersRefine(h, s);
    GaugesRefine(h, s);
    HistogramsRefine(h, s);
  }

  lemma TypesAfter(m: Memory, op: Op)
    ensures MemoryAfter(m, op).types == WithType(m, op.series.name, KindOf(op)).types
  {
  }

  /** The type kept in memory is that of some operation on the name, the first one. */
  lemma {:induction false} TypeIsUsed(h: seq<Op>, name: string) returns (op: Op)
    requires exists o :: o in h && o.series.name == name
    ensures op in h && op.series.name == name
    ensures name in MemoryOf(h).types && MemoryOf(h).types[name] == KindOf(op)
  {
    var front, last := h[..|h| - 1], h[|h| - 1];
    assert h == front + [last] && last in h;
    TypesAfter(MemoryOf(front), last);
    if o :| o in front && o.series.name == name {
      op := TypeIsUsed(front, name);
    } else {
      NoTypeYet(front, name);
      op := last;
    }
  }

  lemma {:induction false} NoTypeYet(h: seq<Op>, name: string)
    requires forall o | o in h :: o.series.name != name
    ensures name !in MemoryOf(h).types
  {
    if h != [] {
      assert h[|h| - 1] in h;
      NoTypeYet(h[..|h| - 1], name);
    }
  }

  // ----- rendering from the shared table

  function ValueAt(rows: Rows, k: RowKey): real {
    if k in rows then rows[k].value else 0.0
  }

  function BucketOf(line: Line): Bucket {
    match line case LeLine(b) => Le(b) case InfLine => Inf case CountLine => CountOf case SumLine => SumOf
  }

  ghost predicate HasRow(rows: Rows, s: Series) {
    exists k | k in rows :: k.series == s
  }

  /** The lines that the shared rendering writes for a sample, each with the row it comes from. A metric's type is
  that of the first of its rows, `head`. A counter or gauge has a line for every row of the series, whatever its
  bucket; a histogram has one line for each of its buckets on every series with a row, 0 where the row is missing. */
  ghost function SharedLines(rows: Rows, head: RowKey, x: Sample): set<(Bucket, real)>
    requires head in rows && head.series.name == x.series.name
  {
    match x
    case Value(s) =>
      if rows[head].kind != HistogramKind then set k | k in rows && k.series == s :: (k.bucket, rows[k].value) else {}
    case HistogramLine(s, line) =>
      if rows[head].kind == HistogramKind && HasRow(rows, s) then {(BucketOf(line), ValueAt(rows, RowKey(s, BucketOf(line))))} else {}
  }

  /** The shared rendering writes the sample once, with the expected value, or not at all. */
  ghost predicate Agree(expected: Option<real>, shared: set<(Bucket, real)>) {
    if expected.None? then shared == {} else exists b: Bucket :: shared == {(b, expected.value)}
  }

  /** What a list of updates adds to a bucket, and whether it names the bucket at all. */
  function Amount(updates: seq<(Bucket, real)>, b: Bucket): real {
    if updates == [] then 0.0
    else
      var last := updates[|updates| - 1];
      Amount(updates[..|updates| - 1], b) + if last.0 == b then last.1 else 0.0
  }

  function Names(updates: seq<(Bucket, real)>, b: Bucket): bool {
    updates != [] && (updates[|updates| - 1].0 == b || Names(updates[..|updates| - 1], b))
  }

  lemma {:induction false} AddAllAt(rows: Rows, s: Series, updates: seq<(Bucket, real)>, k: RowKey)
    ensures ValueAt(AddAll(rows, s, updates), k) == ValueAt(rows, k) + if k.series == s then Amount(updates, k.bucket) else 0.0
    ensures k in AddAll(rows, s, updates) <==> k in rows || (k.series == s && Names(updates, k.bucket))
  {
    if updates != [] {
      AddAllAt(rows, s, updates[..|updates| - 1], k);
    }
  }

  lemma {:induction false} AddAllKinds(rows: Rows, s: Series, updates: seq<(Bucket, real)>, k: RowKey)
    requires k in AddAll(rows, s, updates)
    ensures
      || (k in rows && AddAll(rows, s, updates)[k] == rows[k])
      || (k.series == s && Names(updates, k.bucket) && AddAll(rows, s, updates)[k].kind == HistogramKind)
  {
    if updates != [] && k in AddAll(rows, s, updates[..|updates| - 1]) {
      AddAllKinds(rows, s, updates[..|updates| - 1], k);
    }
  }

  lemma {:induction false} AmountAppend(a: seq<(Bucket, real)>, c: seq<(Bucket, real)>, b: Bucket)
    ensures Amount(a + c, b) == Amount(a, b) + Amount(c, b)
    ensures Names(a + c, b) <==> Names(a, b) || Names(c, b)
  {
    if c == [] {
      assert a + c == a;
    } else {
      assert (a + c)[..|a + c| - 1] == a + c[..|c| - 1];
      AmountAppend(a, c[..|c| - 1], b);
    }
  }

  ghost predicate Distinct(bounds: seq<int>) {
    forall i, j | 0 <= i < j < |bounds| :: bounds[i] != bounds[j]
  }

  ghost predicate Counts(bounds: seq<int>, value: real, b: Bucket) {
    b.Le? && b.bound in bounds && value <= b.bound as real
  }

  lemma CountsGrows(bounds: seq<int>, last: int, value: real, b: Bucket)
    ensures Counts(bounds + [last], value, b) <==> Counts(bounds, value, b) || (b == Le(last) && value <= last as real)
  {
  }

  lemma AmountLast(updates: seq<(Bucket, real)>, u: (Bucket, real), b: Bucket)
    ensures Amount(updates + [u], b) == Amount(updates, b) + if u.0 == b then u.1 else 0.0
    ensures Names(updates + [u], b) <==> u.0 == b || Names(updates, b)
  {
  }

  lemma {:induction false} BucketAmounts(bounds: seq<int>, value: real, b: Bucket)
    requires Distinct(bounds)
    ensures Amount(BucketUpdates(bounds, value), b) == if Counts(bounds, value, b) then 1.0 else 0.0
    ensures Names(BucketUpdates(bounds, value), b) <==> Counts(bounds, value, b)
  {
    if bounds != [] {
      var front, last := bounds[..|bounds| - 1], bounds[|bounds| - 1];
      BucketAmounts(front, value, b);
      assert bounds == front + [last];
      CountsGrows(front, last, value, b);
      AmountLast(BucketUpdates(front, value), (Le(last), 1.0), b);
    }
  }

  function HeadUpdates(value: real): seq<(Bucket, real)> {
    [(SumOf, value), (CountOf, 1.0), (Inf, 1.0)]
  }

  lemma HeadAmounts(value: real, b: Bucket)
    ensures Amount(HeadUpdates(value), b) == if b == SumOf then value else if b == CountOf || b == Inf then 1.0 else 0.0
    ensures Names(HeadUpdates(value), b) <==> b == SumOf || b == CountOf || b == Inf
  {
    var u := HeadUpdates(value);
    assert u[..2][..1] == u[..1] == [(SumOf, value)] && u[..1][..0] == [];
    assert Amount(u[..1], b) == if b == SumOf then value else 0.0;
    assert Amount(u[..2], b) == Amount(u[..1], b) + if b == CountOf then 1.0 else 0.0;
    assert Names(u[..1], b) <==> b == SumOf;
    assert Names(u[..2], b) <==> b == CountOf || Names(u[..1], b);
  }

  /** What one observation adds to each histogram row. */
  lemma UpdateAmounts(value: real, b: Bucket)
    ensures Amount(Updates(value), b) ==
      if b == SumOf then value else if b == CountOf || b == Inf || Counts(BUCKETS, value, b) then 1.0 else 0.0
    ensures Names(Updates(value), b) <==> b == SumOf || b == CountOf || b == Inf || Counts(BUCKETS, value, b)
  {
    HeadAmounts(value, b);
    BucketAmounts(BUCKETS, value, b);
    AmountAppend(HeadUpdates(value), BucketUpdates(BUCKETS, value), b);
  }

  /** An observation adds to each line what it adds to the line's row. */
  lemma LineGrows(values: seq<real>, value: real, line: Line)
    requires IsLine(line)
    ensures LineValue(values + [value], line) == LineValue(values, line) + Amount(Updates(value), BucketOf(line))
  {
    UpdateAmounts(value, BucketOf(line));
    assert (values + [value])[..|values|] == values;
  }

  /** Histogram rows hold what their lines mean, whatever the types. */
  lemma {:induction false} LineRefines(h: seq<Op>, s: Series, line: Line)
    requires IsLine(line)
    ensures ValueAt(TableOf(h), RowKey(s, BucketOf(line))) == LineValue(Observed(h, s), line)
  {
    if h != [] {
      var front, op, k := h[..|h| - 1], h[|h| - 1], RowKey(s, BucketOf(line));
      LineRefines(front, s, line);
      if op.Observe? {
        AddAllAt(TableOf(front), op.series, Updates(op.value), k);
        LineGrows(Observed(front, s), op.value, line);
      }
    }
  }

  /** The plain row of a series belongs to its counter or gauge. */
  lemma {:induction false} PlainRefines(h: seq<Op>, s: Series)
    requires OneTypeFor(h, s.name)
    ensures RowKey(s, Plain) in TableOf(h) <==> Has(h, CounterKind, s) || Has(h, GaugeKind, s)
    ensures Has(h, CounterKind, s) ==> ValueAt(TableOf(h), RowKey(s, Plain)) == CounterTotal(h, s)
    ensures Has(h, GaugeKind, s) ==> ValueAt(TableOf(h), RowKey(s, Plain)) == GaugeValue(h, s)
  {
    if h != [] {
      var front, op, k := h[..|h| - 1], h[|h| - 1], RowKey(s, Plain);
      assert h == front + [op];
      PlainRefines(front, s);
      HasGrows(front, op, CounterKind, s);
      HasGrows(front, op, GaugeKind, s);
      if !Has(front, CounterKind, s) { NoCounterNoTotal(front, s); }
      if op.Observe? {
        AddAllAt(TableOf(front), op.series, Updates(op.value), k);
        UpdateAmounts(op.value, Plain);
      }
    }
  }

  /** Every row comes from an operation on its series, of its type; the plain rows are those of no histogram. */
  lemma {:induction false} RowHasOp(h: seq<Op>, k: RowKey) returns (op: Op)
    requires k in TableOf(h)
    ensures op in h && op.series == k.series && KindOf(op) == TableOf(h)[k].kind
    ensures k.bucket.Plain? <==> TableOf(h)[k].kind != HistogramKind
  {
    var front, last := h[..|h| - 1], h[|h| - 1];
    assert h == front + [last];
    if last.Observe? {
      AddAllKinds(TableOf(front), last.series, Updates(last.value), k);
      UpdateAmounts(last.value, k.bucket);
    }
    if k in TableOf(front) {
      op := RowHasOp(front, k);
    }
    if !(k in TableOf(front) && TableOf(h)[k] == TableOf(front)[k]) {
      op := last;
    }
  }

  lemma {:induction false} ObservedExactlyWhen(h: seq<Op>, s: Series)
    ensures Observed(h, s) != [] <==> Has(h, HistogramKind, s)
    ensures Observed(h, s) != [] ==> RowKey(s, CountOf) in TableOf(h)
  {
    if h != [] {
      var front, op := h[..|h| - 1], h[|h| - 1];
      assert h == front + [op];
      ObservedExactlyWhen(front, s);
      HasGrows(front, op, HistogramKind, s);
      if op.Observe? {
        AddAllAt(TableOf(front), op.series, Updates(op.value), RowKey(s, CountOf));
        UpdateAmounts(op.value, CountOf);
      }
    }
  }

  // ----- the refinement

  ghost predicate IsSample(x: Sample) {
    x.HistogramLine? ==> IsLine(x.line)
  }

  /** The memory rendering of every sample is what the history means. */
  lemma MemoryRendersMeaning(h: seq<Op>, x: Sample)
    requires OneTypeFor(h, x.series.name) && IsSample(x)
    ensures MemorySample(MemoryOf(h), x) == Meaning(h, x)
  {
    var s := x.series;
    MemoryRefines(h, s);
    ObservedExactlyWhen(h, s);
    if op :| op in h && op.series.name == s.name {
      var first := TypeIsUsed(h, s.name);
    } else {
      NoTypeYet(h, s.name);
    }
  }

  /** Where the type is no histogram's, a series has its plain row and no other. */
  lemma PlainLines(h: seq<Op>, head: RowKey, s: Series)
    requires OneTypeFor(h, s.name) && head in TableOf(h) && head.series.name == s.name && TableOf(h)[head].kind != HistogramKind
    ensures SharedLines(TableOf(h), head, Value(s)) ==
            if RowKey(s, Plain) in TableOf(h) then {(Plain, TableOf(h)[RowKey(s, Plain)].value)} else {}
  {
    var op := RowHasOp(h, head);
    forall k | k in TableOf(h) && k.series == s ensures k == RowKey(s, Plain) {
      var o := RowHasOp(h, k);
    }
  }

  /** So is the shared rendering, whichever row of the name comes first. */
  lemma SharedRendersMeaning(h: seq<Op>, head: RowKey, x: Sample)
    requires OneTypeFor(h, x.series.name) && IsSample(x)
    requires head in TableOf(h) && head.series.name == x.series.name
    ensures Agree(Meaning(h, x), SharedLines(TableOf(h), head, x))
  {
    var s := x.series;
    var op := RowHasOp(h, head);
    PlainRefines(h, s);
    ObservedExactlyWhen(h, s);
    if x.HistogramLine? {
      LineRefines(h, s, x.line);
      if k :| k in TableOf(h) && k.series == s {
        var o := RowHasOp(h, k);
      }
    } else if TableOf(h)[head].kind != HistogramKind {
      PlainLines(h, head, s);
    }
  }

  /** A name without rows has no samples. */
  lemma NoRowsNoMeaning(h: seq<Op>, x: Sample)
    requires OneTypeFor(h, x.series.name)
    requires forall k | k in TableOf(h) :: k.series.name != x.series.name
    ensures Meaning(h, x) == None
  {
    PlainRefines(h, x.series);
    ObservedExactlyWhen(h, x.series);
  }

  /** Both back ends write every sample of the name alike, whichever of its rows comes first. */
  ghost predicate AgreeOn(h: seq<Op>, name: string) {
    && (forall head, x: Sample | head in TableOf(h) && head.series.name == name == x.series.name && IsSample(x) ::
          Agree(MemorySample(MemoryOf(h), x), SharedLines(TableOf(h), head, x)))
    && ((forall k | k in TableOf(h) :: k.series.name != name) ==>
          forall x: Sample | x.series.name == name && IsSample(x) :: MemorySample(MemoryOf(h), x) == None)
  }

  /** With one type on the name both back ends give every sample of the name the same value. */
  lemma BackEndsAgree(h: seq<Op>, name: string)
    requires OneTypeFor(h, name)
    ensures AgreeOn(h, name)
  {
    forall head, x: Sample | head in TableOf(h) && head.series.name == name == x.series.name && IsSample(x)
      ensures Agree(MemorySample(MemoryOf(h), x), SharedLines(TableOf(h), head, x))
    {
      MemoryRendersMeaning(h, x);
      SharedRendersMeaning(h, head, x);
    }
    if forall k | k in TableOf(h) :: k.series.name != name {
      forall x: Sample | x.series.name == name && IsSample(x) ensures MemorySample(MemoryOf(h), x) == None {
        MemoryRendersMeaning(h, x);
        NoRowsNoMeaning(h, x);
      }
    }
  }

  // ----- two types on one name

  /** Whichever row comes first, some sample of the name differs. */
  ghost predicate DifferOn(h: seq<Op>, name: string) {
    && (exists head :: head in TableOf(h) && head.series.name == name)
    && forall head | head in TableOf(h) && head.series.name == name :: DifferAt(h, head)
  }

  ghost predicate DifferAt(h: seq<Op>, head: RowKey)
    requires head in TableOf(h)
  {
    exists x: Sample :: x.series.name == head.series.name && IsSample(x) && !Agree(MemorySample(MemoryOf(h), x), SharedLines(TableOf(h), head, x))
  }

  function LabelLength(op: Op): nat {
    if op.series.labels == [] then 0 else |op.series.labels[0].0|
  }

  function Longest(h: seq<Op>): nat {
    if h == [] then 0
    else
      var n := Longest(h[..|h| - 1]);
      if n < LabelLength(h[|h| - 1]) then LabelLength(h[|h| - 1]) else n
  }

  /** A series of the name that the history does not mention. */
  function NewSeries(h: seq<Op>, name: string): Series {
    Series(name, [(seq(Longest(h) + 1, _ => 'x'), "")])
  }

  lemma {:induction false} LongestBounds(h: seq<Op>, op: Op)
    requires op in h
    ensures LabelLength(op) <= Longest(h)
  {
    assert h == h[..|h| - 1] + [h[|h| - 1]];
    if op in h[..|h| - 1] { LongestBounds(h[..|h| - 1], op); }
  }

  lemma NewSeriesIsNew(h: seq<Op>, name: string)
    ensures forall op | op in h :: op.series != NewSeries(h, name)
  {
    forall op | op in h ensures op.series != NewSeries(h, name) {
      LongestBounds(h, op);
    }
  }

  /** An operation's own rows are in the table. */
  lemma {:induction false} OpHasRow(h: seq<Op>, op: Op, b: Bucket)
    requires op in h && if op.Observe? then b == SumOf || b == CountOf else b == Plain
    ensures RowKey(op.series, b) in TableOf(h)
  {
    var front, last := h[..|h| - 1], h[|h| - 1];
    assert h == front + [last];
    if op in front { OpHasRow(front, op, b); }
    if last.Observe? {
      AddAllAt(TableOf(front), last.series, Updates(last.value), RowKey(op.series, b));
      UpdateAmounts(last.value, b);
    }
  }

  /** The value that a name of counter or gauge type shows for a series in memory. */
  lemma MemoryShows(h: seq<Op>, op: Op)
    requires op in h && op.series.name in MemoryOf(h).types && MemoryOf(h).types[op.series.name] == KindOf(op)
    ensures op.Counter? ==> MemorySample(MemoryOf(h), Value(op.series)) == Some(CounterTotal(h, op.series))
    ensures op.Gauge? ==> MemorySample(MemoryOf(h), Value(op.series)) == Some(GaugeValue(h, op.series))
    ensures op.Observe? ==> MemorySample(MemoryOf(h), HistogramLine(op.series, CountLine)).Some?
  {
    MemoryRefines(h, op.series);
    ObservedExactlyWhen(h, op.series);
  }

  lemma TypeStays(h: seq<Op>, op: Op, name: string)
    requires name in MemoryOf(h).types
    ensures name in MemoryOf(h + [op]).types && MemoryOf(h + [op]).types[name] == MemoryOf(h).types[name]
  {
    assert (h + [op])[..|h|] == h;
    TypesAfter(MemoryOf(h), op);
  }

  /** A counter or gauge in memory, and a plain row that says something else. */
  lemma PlainRowDiffers(h: seq<Op>, op: Op)
    requires op in h && !op.Observe? && op.series.name in MemoryOf(h).types && MemoryOf(h).types[op.series.name] == KindOf(op)
    requires ValueAt(TableOf(h), RowKey(op.series, Plain)) != if op.Counter? then CounterTotal(h, op.series) else GaugeValue(h, op.series)
    ensures DifferOn(h, op.series.name)
  {
    var x, k := Value(op.series), RowKey(op.series, Plain);
    MemoryShows(h, op);
    OpHasRow(h, op, Plain);
    forall head | head in TableOf(h) && head.series.name == op.series.name ensures DifferAt(h, head) {
      if TableOf(h)[head].kind != HistogramKind {
        assert (Plain, TableOf(h)[k].value) in SharedLines(TableOf(h), head, x);
      }
      assert !Agree(MemorySample(MemoryOf(h), x), SharedLines(TableOf(h), head, x));
    }
  }

  /** A counter or gauge in memory, and observations on the name. */
  lemma ObservationsDiffer(h: seq<Op>, op: Op, other: Op)
    requires op in h && !op.Observe? && op.series.name in MemoryOf(h).types && MemoryOf(h).types[op.series.name] == KindOf(op)
    requires other in h && other.Observe? && other.series.name == op.series.name
    ensures DifferOn(h, op.series.name)
  {
    MemoryShows(h, op);
    OpHasRow(h, op, Plain);
    OpHasRow(h, other, SumOf);
    OpHasRow(h, other, CountOf);
    forall head | head in TableOf(h) && head.series.name == op.series.name ensures DifferAt(h, head) {
      var x := if TableOf(h)[head].kind == HistogramKind then Value(op.series) else Value(other.series);
      if TableOf(h)[head].kind != HistogramKind {
        var lines, a, b := SharedLines(TableOf(h), head, x), RowKey(other.series, SumOf), RowKey(other.series, CountOf);
        assert (SumOf, TableOf(h)[a].value) in lines && (CountOf, TableOf(h)[b].value) in lines;
      }
      assert !Agree(MemorySample(MemoryOf(h), x), SharedLines(TableOf(h), head, x));
    }
  }

  /** A histogram in memory, and a row of a series without observations. */
  lemma UnobservedDiffers(h: seq<Op>, op: Op, other: Op)
    requires op in h && op.Observe? && op.series.name in MemoryOf(h).types && MemoryOf(h).types[op.series.name] == HistogramKind
    requires other in h && !other.Observe? && other.series.name == op.series.name && Observed(h, other.series) == []
    ensures DifferOn(h, op.series.name)
  {
    MemoryShows(h, op);
    MemoryRefines(h, other.series);
    OpHasRow(h, op, SumOf);
    OpHasRow(h, other, Plain);
    assert HasRow(TableOf(h), other.series);
    forall head | head in TableOf(h) && head.series.name == op.series.name ensures DifferAt(h, head) {
      var x := HistogramLine(if TableOf(h)[head].kind == HistogramKind then other.series else op.series, CountLine);
      assert !Agree(MemorySample(MemoryOf(h), x), SharedLines(TableOf(h), head, x));
    }
  }

  /** Further operations on a name, of types that the history uses on it. */
  ghost predicate Continues(h: seq<Op>, name: string, more: seq<Op>) {
    forall op | op in more :: op.series.name == name && Uses(h, name, KindOf(op))
  }

  /** One more operation that makes a mixed name differ, when memory shows a counter or gauge. */
  lemma PlainContinuation(h: seq<Op>, first: Op, other: Op) returns (op: Op)
    requires first in h && other in h && first.series.name == other.series.name && !first.Observe? && !other.Observe?
    requires first.series.name in MemoryOf(h).types && MemoryOf(h).types[first.series.name] == KindOf(first) != KindOf(other)
    ensures op.series.name == first.series.name && KindOf(op) == KindOf(other) && DifferOn(h + [op], first.series.name)
  {
    var s := first.series;
    op := if first.Counter? then Gauge(s, CounterTotal(h, s) + 1.0)
          else Counter(s, GaugeValue(h, s) + 1.0 - ValueAt(TableOf(h), RowKey(s, Plain)));
    assert (h + [op])[..|h|] == h;
    TypeStays(h, op, s.name);
    PlainRowDiffers(h + [op], first);
  }

  lemma HistogramContinuation(h: seq<Op>, first: Op, other: Op) returns (op: Op)
    requires first in h && other in h && first.series.name == other.series.name && first.Observe? && !other.Observe?
    requires first.series.name in MemoryOf(h).types && MemoryOf(h).types[first.series.name] == HistogramKind
    ensures op.series.name == first.series.name && KindOf(op) == KindOf(other) && DifferOn(h + [op], first.series.name)
  {
    var s := NewSeries(h, first.series.name);
    NewSeriesIsNew(h, first.series.name);
    op := if other.Counter? then Counter(s, 0.0) else Gauge(s, 0.0);
    assert (h + [op])[..|h|] == h;
    TypeStays(h, op, s.name);
    ObservedExactlyWhen(h, s);
    UnobservedDiffers(h + [op], first, op);
  }

  /** Every history with two types on a name has a continuation in those types after which the back ends differ. */
  lemma MixedTypesDiverge(h: seq<Op>, name: string, a: Op, b: Op) returns (more: seq<Op>)
    requires a in h && b in h && a.series.name == b.series.name == name && KindOf(a) != KindOf(b)
    ensures |more| <= 1 && (forall op | op in more :: op.series.name == name && (KindOf(op) == KindOf(a) || KindOf(op) == KindOf(b)))
    ensures DifferOn(h + more, name)
  {
    var first := TypeIsUsed(h, name);
    var other := if KindOf(a) != KindOf(first) && (a.Observe? || KindOf(b) == KindOf(first) || !b.Observe?) then a else b;
    if first.Observe? {
      var op := HistogramContinuation(h, first, other);
      more := [op];
    } else if other.Observe? {
      ObservationsDiffer(h, first, other);
      more := [];
      assert h + more == h;
    } else {
      var op := PlainContinuation(h, first, other);
      more := [op];
    }
  }

  /** The back ends agree on a name, now and however the types in use on it go on, exactly when it has one type. */
  lemma AgreeForGoodExactlyWhen(h: seq<Op>, name: string)
    ensures OneTypeFor(h, name) <==> forall more | Continues(h, name, more) :: AgreeOn(h + more, name)
  {
    if OneTypeFor(h, name) {
      forall more | Continues(h, name, more) ensures AgreeOn(h + more, name) {
        BackEndsAgree(h + more, name);
      }
    } else {
      var a, b :| a in h && b in h && a.series.name == name && b.series.name == name && KindOf(a) != KindOf(b);
      var more := MixedTypesDiverge(h, name, a, b);
      assert Continues(h, name, more);
      var head :| head in TableOf(h + more) && head.series.name == name;
      assert DifferAt(h + more, head);
    }
  }

  /** For example, a gauge set on a counter: memory shows the counter, the table the gauge. */
  lemma GaugeOnCounter(s: Series, amount: real, value: real)
    requires amount != value
    ensures DifferOn([Counter(s, amount), Gauge(s, value)], s.name)
  {
    var h := [Counter(s, amount), Gauge(s, value)];
    assert h[..1] == [Counter(s, amount)] && h[..1][..0] == [];
    var first := TypeIsUsed(h[..1], s.name);
    assert h == h[..1] + [h[1]];
    TypeStays(h[..1], h[1], s.name);
    assert CounterTotal(h[..1], s) == amount == CounterTotal(h, s);
    PlainRowDiffers(h, h[0]);
  }
}
