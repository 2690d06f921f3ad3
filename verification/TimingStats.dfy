/** command_timing_stats: interpolated percentiles over the reals, and the grouping of
    metrics by command. */
module TimingStats {
  import opened Rows
  import opened Sorting
  import opened Paging

  // ----- percentiles -----

  predicate Ascending(q: seq<real>) {
    forall i, j | 0 <= i < j < |q| :: q[i] <= q[j]
  }

  function RankOf(q: seq<real>, p: real): real {
    p / 100.0 * (|q| - 1) as real
  }

  lemma ProductNotNegative(x: real, y: real)
    requires 0.0 <= x && 0.0 <= y
    ensures 0.0 <= x * y
  {
  }

  lemma ScaledBy(x: real, n: real)
    requires 0.0 <= x <= 1.0 && 0.0 <= n
    ensures 0.0 <= x * n <= n
  {
    assert (1.0 - x) * n >= 0.0;
  }

  lemma FloorInRange(r: real, n: nat)
    requires 0.0 <= r <= n as real
    ensures 0 <= r.Floor <= n
    ensures 0.0 <= r - r.Floor as real < 1.0
  {
  }

  /** The rank stays within the indices, so truncation and floor agree on it. */
  lemma RankInRange(q: seq<real>, p: real)
    requires q != [] && 0.0 <= p <= 100.0
    ensures 0.0 <= RankOf(q, p) <= (|q| - 1) as real
    ensures 0 <= RankOf(q, p).Floor <= |q| - 1
    ensures 0.0 <= RankOf(q, p) - RankOf(q, p).Floor as real < 1.0
  {
    var share, last := p / 100.0, |q| - 1;
    ScaledBy(share, last as real);
    var rank := share * last as real;
    assert RankOf(q, p) == rank;
    FloorInRange(rank, last);
  }

  lemma RankMonotone(q: seq<real>, p: real, r: real)
    requires q != [] && p <= r
    ensures RankOf(q, p) <= RankOf(q, r)
  {
    var n, step := (|q| - 1) as real, r / 100.0 - p / 100.0;
    ProductNotNegative(step, n);
    assert step * n == r / 100.0 * n - p / 100.0 * n;
  }

  function Interpolate(a: real, b: real, x: real): real {
    a + (b - a) * x
  }

  lemma InterpolateBetween(a: real, b: real, x: real)
    requires a <= b && 0.0 <= x <= 1.0
    ensures a <= Interpolate(a, b, x) <= b
  {
    var width := b - a;
    ProductNotNegative(width, x);
    ProductNotNegative(width, 1.0 - x);
    assert width * (1.0 - x) == width - width * x;
  }

  lemma InterpolateMonotone(a: real, b: real, x: real, y: real)
    requires a <= b && x <= y
    ensures Interpolate(a, b, x) <= Interpolate(a, b, y)
  {
    var width, step := b - a, y - x;
    ProductNotNegative(width, step);
    assert width * step == width * y - width * x;
  }

  /** The index above lower, within the list. */
  function Upper(q: seq<real>, lower: nat): (upper: nat)
    requires lower < |q|
    ensures lower <= upper < |q| && (lower + 1 < |q| ==> upper == lower + 1)
  {
    if lower + 1 < |q| - 1 then lower + 1 else |q| - 1
  }

  /** _percentile. */
  function Percentile(q: seq<real>, p: real): real
    requires q != [] && 0.0 <= p <= 100.0
  {
    if |q| == 1 then q[0]
    else
      RankInRange(q, p);
      var lower := RankOf(q, p).Floor;
      Interpolate(q[lower], q[Upper(q, lower)], RankOf(q, p) - lower as real)
  }

  /** A percentile lies between the two values around its rank. */
  lemma PercentileBetweenNeighbours(q: seq<real>, p: real)
    requires q != [] && Ascending(q) && 0.0 <= p <= 100.0
    ensures 0 <= RankOf(q, p).Floor < |q|
    ensures q[RankOf(q, p).Floor] <= Percentile(q, p) <= q[Upper(q, RankOf(q, p).Floor)]
  {
    RankInRange(q, p);
    var lower := RankOf(q, p).Floor;
    InterpolateBetween(q[lower], q[Upper(q, lower)], RankOf(q, p) - lower as real);
  }

  /** A percentile whose rank is whole is the value of that rank. */
  lemma PercentileAtValue(q: seq<real>, p: real, i: nat)
    requires q != [] && 0.0 <= p <= 100.0 && i < |q| && RankOf(q, p) == i as real
    ensures Percentile(q, p) == q[i]
  {
    RankInRange(q, p);
  }

  lemma RankIs(q: seq<real>, p: real, i: nat, x: real)
    requires q != [] && p * (|q| - 1) as real == 100.0 * (i as real + x)
    ensures RankOf(q, p) == i as real + x
  {
    var n := (|q| - 1) as real;
    assert p / 100.0 * n == p * n / 100.0;
  }

  lemma Weighted(a: real, b: real, x: real)
    ensures Interpolate(a, b, x) == (1.0 - x) * a + x * b
  {
    assert (b - a) * x == b * x - a * x;
    assert (1.0 - x) * a == a - x * a;
  }

  /** The exact value: p per cent of the way from the first index to the last is index i
      and a fraction x of the way to the next; the percentile is that far between the two
      values. */
  lemma PercentileExactly(q: seq<real>, p: real, i: nat, x: real)
    requires q != [] && 0.0 <= p <= 100.0 && 0.0 <= x < 1.0
    requires p * (|q| - 1) as real == 100.0 * (i as real + x)
    ensures i < |q|
    ensures Percentile(q, p) == if i + 1 < |q| then (1.0 - x) * q[i] + x * q[i + 1] else q[i]
  {
    RankIs(q, p, i, x);
    RankInRange(q, p);
    assert RankOf(q, p).Floor == i;
    Weighted(q[i], q[Upper(q, i)], x);
  }

  /** Percentiles stay between the first and the last value, and reach them at 0 and
      100. */
  lemma PercentileInRange(q: seq<real>, p: real)
    requires q != [] && Ascending(q) && 0.0 <= p <= 100.0
    ensures q[0] <= Percentile(q, p) <= q[|q| - 1]
    ensures Percentile(q, 0.0) == q[0] && Percentile(q, 100.0) == q[|q| - 1]
  {
    PercentileBetweenNeighbours(q, p);
    PercentileAtValue(q, 0.0, 0);
    PercentileAtValue(q, 100.0, |q| - 1);
  }

  /** A higher percentage never gives a lower percentile, within an interval and across
      the values between intervals. */
  lemma PercentileMonotone(q: seq<real>, p: real, r: real)
    requires q != [] && Ascending(q) && 0.0 <= p <= r <= 100.0
    ensures Percentile(q, p) <= Percentile(q, r)
  {
    RankInRange(q, p);
    RankInRange(q, r);
    RankMonotone(q, p, r);
    var low, high := RankOf(q, p).Floor, RankOf(q, r).Floor;
    if low == high {
      InterpolateMonotone(q[low], q[Upper(q, low)], RankOf(q, p) - low as real, RankOf(q, r) - low as real);
    } else {
      PercentileBetweenNeighbours(q, p);
      PercentileBetweenNeighbours(q, r);
      assert low < high;
      assert q[Upper(q, low)] <= q[high];
    }
  }

  // ----- grouping -----

  datatype Metric = Metric(commandName: string, durationMs: real, mode: string)

  datatype Row = Row(
    commandName: string, callCount: nat, p50Ms: real, p95Ms: real, maxMs: real,
    directCount: nat, queuedCount: nat)

  function OfCommand(name: string): Metric -> bool {
    (m: Metric) => m.commandName == name
  }

  function InMode(mode: string): Metric -> bool {
    (m: Metric) => m.mode == mode
  }

  /** The command names in order of first appearance. */
  function Names(metrics: seq<Metric>): seq<string> {
    if metrics == [] then []
    else
      var before := Names(metrics[..|metrics| - 1]);
      var name := metrics[|metrics| - 1].commandName;
      if name in before then before else before + [name]
  }

  function RealOrder(): (real, real) -> bool {
    (x: real, y: real) => x <= y
  }

  function NameOrder(): (string, string) -> bool {
    (x: string, y: string) => TextLe(x, y)
  }

  function Durations(records: seq<Metric>): seq<real> {
    seq(|records|, i requires 0 <= i < |records| => records[i].durationMs)
  }

  function SortedDurations(records: seq<Metric>): (q: seq<real>)
    ensures |q| == |records| && Ascending(q) && multiset(q) == multiset(Durations(records))
  {
    assert TotalPreorder(RealOrder());
    SortSorts(RealOrder(), Durations(records));
    assert forall x, y :: RealOrder()(x, y) <==> x <= y;
    Sort(RealOrder(), Durations(records))
  }

  /** The row of one command from its records. */
  function RowOf(name: string, records: seq<Metric>): Row
    requires records != []
  {
    var durations := SortedDurations(records);
    Row(name, |records|, Percentile(durations, 50.0), Percentile(durations, 95.0), durations[|durations| - 1],
        |Filter(InMode("direct"), records)|, |Filter(InMode("queued"), records)|)
  }

  lemma {:induction false} NamesFacts(metrics: seq<Metric>)
    ensures Distinct(Names(metrics))
    ensures forall i | 0 <= i < |metrics| :: metrics[i].commandName in Names(metrics)
    ensures forall name | name in Names(metrics) :: Filter(OfCommand(name), metrics) != []
  {
    if metrics != [] {
      var front, last := metrics[..|metrics| - 1], metrics[|metrics| - 1];
      NamesFacts(front);
      forall name
        ensures Filter(OfCommand(name), metrics)
             == Filter(OfCommand(name), front) + (if last.commandName == name then [last] else [])
      {
        FilterSnoc(OfCommand(name), metrics);
      }
    }
  }

  lemma NameOrderIsTotal()
    ensures TotalPreorder(NameOrder())
  {
    forall x: string, y: string
      ensures TextLe(x, y) || TextLe(y, x)
    {
      TextTotal(x, y);
    }
    forall x: string, y: string, z: string | TextLe(x, y) && TextLe(y, z)
      ensures TextLe(x, z)
    {
      TextTransitive(x, y, z);
    }
  }

  /** sorted(grouped). */
  function SortedNames(metrics: seq<Metric>): (names: seq<string>)
    ensures Distinct(names) && Ordered(NameOrder(), names)
    ensures forall name :: name in names <==> name in Names(metrics)
  {
    NamesFacts(metrics);
    NameOrderIsTotal();
    SortSorts(NameOrder(), Names(metrics));
    PermutationStaysDistinct(Names(metrics), Sort(NameOrder(), Names(metrics)));
    Sort(NameOrder(), Names(metrics))
  }

  function RowsFor(names: seq<string>, metrics: seq<Metric>): (rows: seq<Row>)
    requires forall name | name in names :: Filter(OfCommand(name), metrics) != []
    ensures |rows| == |names| && forall i | 0 <= i < |names| :: rows[i].commandName == names[i]
  {
    if names == [] then []
    else
      var front, last := names[..|names| - 1], names[|names| - 1];
      assert last in names && forall name | name in front :: name in names;
      RowsFor(front, metrics) + [RowOf(last, Filter(OfCommand(last), metrics))]
  }

  function TimingRows(metrics: seq<Metric>): seq<Row> {
    NamesFacts(metrics);
    RowsFor(SortedNames(metrics), metrics)
  }

  /** The grouping loop: the records of each command, in the order of the store. */
  method Group(metrics: seq<Metric>) returns (grouped: map<string, seq<Metric>>, names: seq<string>)
    ensures names == Names(metrics)
    ensures forall name :: name in grouped <==> name in names
    ensures forall name | name in grouped :: grouped[name] == Filter(OfCommand(name), metrics)
  {
    grouped, names := map[], [];
    for i := 0 to |metrics|
      invariant names == Names(metrics[..i])
      invariant forall name :: name in grouped <==> name in names
      invariant forall name | name in grouped :: grouped[name] == Filter(OfCommand(name), metrics[..i])
      invariant forall name | name !in grouped :: Filter(OfCommand(name), metrics[..i]) == []
    {
      var metric := metrics[i];
      assert metrics[..i + 1][..i] == metrics[..i];
      forall name
        ensures Filter(OfCommand(name), metrics[..i + 1])
             == Filter(OfCommand(name), metrics[..i]) + (if name == metric.commandName then [metric] else [])
      {
        FilterSnoc(OfCommand(name), metrics[..i + 1]);
      }
      if metric.commandName !in grouped {
        grouped := grouped[metric.commandName := []];
        names := names + [metric.commandName];
      }
      grouped := grouped[metric.commandName := grouped[metric.commandName] + [metric]];
    }
    assert metrics[..|metrics|] == metrics;
  }

  /** The loop over the sorted names. */
  method MakeRows(names: seq<string>, grouped: map<string, seq<Metric>>, ghost metrics: seq<Metric>)
    returns (rows: seq<Row>)
    requires forall name | name in names :: Filter(OfCommand(name), metrics) != []
    requires forall name | name in names :: name in grouped && grouped[name] == Filter(OfCommand(name), metrics)
    ensures rows == RowsFor(names, metrics)
  {
    rows := [];
    for i := 0 to |names|
      invariant forall name | name in names[..i] :: name in names
      invariant rows == RowsFor(names[..i], metrics)
    {
      assert names[i] in names && names[..i + 1][..i] == names[..i];
      var records := grouped[names[i]];
      rows := rows + [RowOf(names[i], records)];
    }
    assert names[..|names|] == names;
  }

  /** The command: one row per command in name order, then the page. */
  method CommandTimingStats(metrics: seq<Metric>, limit: int, offset: int) returns (page: seq<Row>, total: nat)
    ensures page == Window(TimingRows(metrics), 0, offset, limit)
    ensures total == |TimingRows(metrics)|
  {
    var grouped, order := Group(metrics);
    NamesFacts(metrics);
    var rows := MakeRows(SortedNames(metrics), grouped, metrics);
    total := |rows|;
    page := Window(rows, 0, offset, limit);
  }

  // ----- what every row says -----

  /** In every row p50 <= p95 <= max, and max is the longest duration of the command. */
  lemma RowIsOrdered(name: string, records: seq<Metric>)
    requires records != []
    ensures var row := RowOf(name, records);
            && row.p50Ms <= row.p95Ms <= row.maxMs
            && (forall i | 0 <= i < |records| :: records[i].durationMs <= row.maxMs)
            && (exists i | 0 <= i < |records| :: records[i].durationMs == row.maxMs)
  {
    var q, d := SortedDurations(records), Durations(records);
    PercentileMonotone(q, 50.0, 95.0);
    PercentileInRange(q, 95.0);
    forall i | 0 <= i < |records|
      ensures records[i].durationMs <= q[|q| - 1]
    {
      assert d[i] in multiset(q);
    }
    assert q[|q| - 1] in multiset(d);
  }

  lemma {:induction false} TwoModes(records: seq<Metric>)
    ensures |Filter(InMode("direct"), records)| + |Filter(InMode("queued"), records)| <= |records|
    ensures |Filter(InMode("direct"), records)| + |Filter(InMode("queued"), records)| == |records|
       <==> forall i | 0 <= i < |records| :: records[i].mode == "direct" || records[i].mode == "queued"
  {
    if records != [] {
      TwoModes(records[1..]);
      assert forall i | 1 <= i < |records| :: records[i] == records[1..][i - 1];
      assert "direct"[0] != "queued"[0];
    }
  }

  lemma {:induction false} RowIs(names: seq<string>, metrics: seq<Metric>, i: nat)
    requires i < |names| && forall name | name in names :: Filter(OfCommand(name), metrics) != []
    ensures Filter(OfCommand(names[i]), metrics) != []
    ensures RowsFor(names, metrics)[i] == RowOf(names[i], Filter(OfCommand(names[i]), metrics))
  {
    assert names[i] in names;
    if i < |names| - 1 {
      var front := names[..|names| - 1];
      assert forall name | name in front :: name in names;
      RowIs(front, metrics, i);
    }
  }

  /** Every row of the command: it counts all metrics of its name, its percentiles are
      ordered, and its maximum is the longest of their durations. */
  lemma EveryRow(metrics: seq<Metric>, i: nat)
    requires i < |TimingRows(metrics)|
    ensures var row := TimingRows(metrics)[i];
            var records := Filter(OfCommand(row.commandName), metrics);
            && row.callCount == |records| > 0
            && row.p50Ms <= row.p95Ms <= row.maxMs
            && (forall j | 0 <= j < |records| :: records[j].durationMs <= row.maxMs)
            && (exists j | 0 <= j < |records| :: records[j].durationMs == row.maxMs)
            && row.directCount + row.queuedCount <= row.callCount
  {
    NamesFacts(metrics);
    var names := SortedNames(metrics);
    RowIs(names, metrics, i);
    var records := Filter(OfCommand(names[i]), metrics);
    RowIsOrdered(names[i], records);
    TwoModes(records);
  }

  /** The places of the metrics with this name, and of those in this mode. */
  function CallsOf(metrics: seq<Metric>, name: string): set<nat> {
    set j: nat | j < |metrics| && metrics[j].commandName == name
  }

  function CallsIn(metrics: seq<Metric>, name: string, mode: string): set<nat> {
    set j: nat | j < |metrics| && metrics[j].commandName == name && metrics[j].mode == mode
  }

  function OfCommandInMode(name: string, mode: string): Metric -> bool {
    (m: Metric) => m.commandName == name && m.mode == mode
  }

  lemma CountsOf(name: string, mode: string, metrics: seq<Metric>)
    ensures |Filter(OfCommand(name), metrics)| == |CallsOf(metrics, name)|
    ensures |Filter(InMode(mode), Filter(OfCommand(name), metrics))| == |CallsIn(metrics, name, mode)|
  {
    FilterCounts(OfCommand(name), metrics);
    assert Places(OfCommand(name), metrics) == CallsOf(metrics, name);
    FilterFilter(InMode(mode), OfCommand(name), OfCommandInMode(name, mode), metrics);
    FilterCounts(OfCommandInMode(name, mode), metrics);
    assert Places(OfCommandInMode(name, mode), metrics) == CallsIn(metrics, name, mode);
  }

  /** The numbers of every row: its counts are those of the metrics with its name, and with
      its name and mode; its percentiles are those of their durations in ascending order. */
  lemma RowExactly(metrics: seq<Metric>, i: nat)
    requires i < |TimingRows(metrics)|
    ensures var row := TimingRows(metrics)[i];
            && row.callCount == |CallsOf(metrics, row.commandName)|
            && row.directCount == |CallsIn(metrics, row.commandName, "direct")|
            && row.queuedCount == |CallsIn(metrics, row.commandName, "queued")|
    ensures var row := TimingRows(metrics)[i];
            var durations := SortedDurations(Filter(OfCommand(row.commandName), metrics));
            && durations != [] && row.p50Ms == Percentile(durations, 50.0) && row.p95Ms == Percentile(durations, 95.0)
  {
    NamesFacts(metrics);
    var names := SortedNames(metrics);
    RowIs(names, metrics, i);
    CountsOf(names[i], "direct", metrics);
    CountsOf(names[i], "queued", metrics);
  }

  function TotalCalls(rows: seq<Row>): nat {
    if rows == [] then 0 else TotalCalls(rows[..|rows| - 1]) + rows[|rows| - 1].callCount
  }

  /** The metrics that belong to one of the names. */
  function Covered(names: seq<string>): Metric -> bool {
    (m: Metric) => m.commandName in names
  }

  lemma {:induction false} CoveredBySnoc(names: seq<string>, metrics: seq<Metric>)
    requires names != [] && Distinct(names)
    ensures |Filter(Covered(names), metrics)|
         == |Filter(Covered(names[..|names| - 1]), metrics)| + |Filter(OfCommand(names[|names| - 1]), metrics)|
  {
    if metrics != [] {
      CoveredBySnoc(names, metrics[1..]);
      assert names == names[..|names| - 1] + [names[|names| - 1]];
    }
  }

  lemma {:induction false} CallsAreCovered(names: seq<string>, metrics: seq<Metric>)
    requires Distinct(names) && forall name | name in names :: Filter(OfCommand(name), metrics) != []
    ensures TotalCalls(RowsFor(names, metrics)) == |Filter(Covered(names), metrics)|
  {
    var rows := RowsFor(names, metrics);
    if names == [] {
      FilterAll(Covered(names), metrics, false);
    } else {
      var front := names[..|names| - 1];
      assert forall name | name in front :: name in names;
      CallsAreCovered(front, metrics);
      assert rows[..|rows| - 1] == RowsFor(front, metrics);
      CoveredBySnoc(names, metrics);
    }
  }

  /** Every metric is counted in exactly one row: the call counts add up to the number of
      metrics, and no command has two rows. */
  lemma CallsAddUp(metrics: seq<Metric>)
    ensures TotalCalls(TimingRows(metrics)) == |metrics|
    ensures forall i, j | 0 <= i < j < |TimingRows(metrics)| ::
              TimingRows(metrics)[i].commandName != TimingRows(metrics)[j].commandName
              && TextLe(TimingRows(metrics)[i].commandName, TimingRows(metrics)[j].commandName)
  {
    NamesFacts(metrics);
    var names := SortedNames(metrics);
    CallsAreCovered(names, metrics);
    FilterAll(Covered(names), metrics, true);
    assert forall i, j | 0 <= i < j < |names| :: NameOrder()(names[i], names[j]);
  }
}
