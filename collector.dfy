/**
 * The Prometheus side of the exporter: the fixed catalogue of metrics that
 * `NewCollector` registers, and `Collect`, which turns the statistics of one
 * scrape into samples and keeps the gauges up to date.
 */
module Exporter {
  import opened StatParser

  // ---------------------------------------------------------------------------
  // Metric kinds and Go's interface assertions
  // ---------------------------------------------------------------------------

  /** The two kinds of metric object the catalogue creates. */
  datatype Kind = Gauge | Counter

  /** The methods of client_golang's `Counter` interface (Metric and Collector included). */
  const CounterMethods: set<string> := {"Desc", "Write", "Describe", "Collect", "Inc", "Add"}

  /** The methods of client_golang's `Gauge` interface. */
  const GaugeMethods: set<string> :=
    {"Desc", "Write", "Describe", "Collect", "Set", "Inc", "Dec", "Add", "Sub", "SetToCurrentTime"}

  /** The methods the object behind each kind provides. */
  function MethodSet(k: Kind): set<string> {
    match k
    case Gauge => GaugeMethods
    case Counter => CounterMethods
  }

  /** The type assertion `metric.(prometheus.Gauge)`: the object has every Gauge method. */
  predicate IsGauge(k: Kind) {
    GaugeMethods <= MethodSet(k)
  }

  /** The type assertion `metric.(prometheus.Counter)`: the object has every Counter method. */
  predicate IsCounter(k: Kind) {
    CounterMethods <= MethodSet(k)
  }

  /**
   * Only gauges pass the Gauge assertion, but both kinds pass the Counter
   * assertion, since a gauge also has `Inc` and `Add`.
   */
  lemma KindAssertions(k: Kind)
    ensures IsGauge(k) <==> k == Gauge
    ensures IsCounter(k)
  {
    if k == Counter {
      assert "Set" in GaugeMethods && "Set" !in CounterMethods;
    }
  }

  // ---------------------------------------------------------------------------
  // The catalogue
  // ---------------------------------------------------------------------------

  /** A metric descriptor: namespace, name and help text. */
  datatype Desc = Desc(namespace: string, name: string, help: string)

  /** A registered metric: its descriptor and the kind of object behind it. */
  datatype Entry = Entry(desc: Desc, kind: Kind)

  /** The names of the statistics the catalogue exports. */
  const StatNames: set<string> :=
    {"Current Transactions", "Total Transactions", "Current Cache Size", "Cache Hits", "Cache Misses"}

  /** A name with the `_total` suffix that marks a counter. */
  predicate IsTotalName(name: string) {
    |name| >= 6 && name[|name| - 6..] == "_total"
  }

  /** The map `NewCollector` fills: one entry for each of the five statistics. */
  function Catalogue(namespace: string): (r: map<string, Entry>)
    ensures r.Keys == StatNames
  {
    map[
      "Current Transactions" := Entry(Desc(namespace, "current_transactions", "Current Transactions"), Gauge),
      "Total Transactions" := Entry(Desc(namespace, "transactions_total", "Total Transactions"), Counter),
      "Current Cache Size" := Entry(Desc(namespace, "current_cache_size", "Current Cache Size"), Gauge),
      "Cache Hits" := Entry(Desc(namespace, "cache_hits_total", "Total Cache Hits"), Counter),
      "Cache Misses" := Entry(Desc(namespace, "cache_misses_total", "Total Cache Misses"), Counter)
    ]
  }

  /** The catalogue has exactly five entries. */
  lemma CatalogueSize(namespace: string)
    ensures |Catalogue(namespace)| == 5
  {
    var names := StatNames;
    assert names == {"Current Transactions"} + {"Total Transactions"} + {"Current Cache Size"}
                    + {"Cache Hits"} + {"Cache Misses"};
  }

  /** Every descriptor lives under the namespace passed in. */
  lemma CatalogueNamespaced(namespace: string)
    ensures forall k :: k in Catalogue(namespace) ==> Catalogue(namespace)[k].desc.namespace == namespace
  {
  }

  /** No two entries share an exported name. */
  lemma CatalogueNamesDistinct(namespace: string)
    ensures forall k, k' :: k in Catalogue(namespace) && k' in Catalogue(namespace) && k != k' ==>
              Catalogue(namespace)[k].desc.name != Catalogue(namespace)[k'].desc.name
  {
  }

  /** The counters are exactly the entries whose exported name ends in `_total`. */
  lemma CatalogueCounterNames(namespace: string)
    ensures forall k :: k in Catalogue(namespace) ==>
              (Catalogue(namespace)[k].kind == Counter <==> IsTotalName(Catalogue(namespace)[k].desc.name))
  {
  }

  /** The names whose object is a gauge. */
  function GaugeNames(metrics: map<string, Entry>): set<string> {
    set k | k in metrics && IsGauge(metrics[k].kind)
  }

  // ---------------------------------------------------------------------------
  // Samples
  // ---------------------------------------------------------------------------

  /** The value type a constant metric is built with. */
  datatype ValueType = CounterValue | GaugeValue

  /** A constant metric sent on the channel: descriptor, value type and value. */
  datatype Sample = Sample(desc: Desc, valueType: ValueType, value: nat)

  /** `MustNewConstMetric(g.Desc(), prometheus.CounterValue, v)`. */
  function ConstCounterSample(e: Entry, v: nat): Sample {
    Sample(e.desc, CounterValue, v)
  }

  /**
   * `emitted` is what one Collect sends for `snapshot`, in the map-iteration
   * order `order`: one sample per name that is both in the snapshot and in
   * the registry, none for any other name, each carrying the entry's
   * descriptor and the snapshot's value.
   */
  ghost predicate Emission(metrics: map<string, Entry>, snapshot: map<string, nat>,
                           order: seq<string>, emitted: seq<Sample>)
  {
    && |emitted| == |order|
    && (forall i, j :: 0 <= i < j < |order| ==> order[i] != order[j])
    && (forall k :: k in order <==> k in snapshot && k in metrics)
    && (forall i :: 0 <= i < |order| ==>
          order[i] in snapshot && order[i] in metrics &&
          emitted[i] == ConstCounterSample(metrics[order[i]], snapshot[order[i]]))
  }

  /** The names of a sequence without repetitions are as many as its elements. */
  lemma {:induction false} DistinctCount(order: seq<string>)
    requires forall i, j :: 0 <= i < j < |order| ==> order[i] != order[j]
    ensures |set k | k in order| == |order|
  {
    if order != [] {
      var rest := order[1..];
      DistinctCount(rest);
      assert (set k | k in order) == {order[0]} + (set k | k in rest);
      assert order[0] !in rest;
    }
  }

  /** One Collect sends as many samples as there are registered names in the snapshot. */
  lemma EmissionCount(metrics: map<string, Entry>, snapshot: map<string, nat>,
                      order: seq<string>, emitted: seq<Sample>)
    requires Emission(metrics, snapshot, order, emitted)
    ensures |emitted| == |snapshot.Keys * metrics.Keys|
  {
    DistinctCount(order);
    assert (set k | k in order) == snapshot.Keys * metrics.Keys;
  }

  /**
   * Two scrapes whose statistics never go down send, for every counter both
   * of them report, the same descriptor and a value that does not go down.
   */
  lemma CountersMonotone(metrics: map<string, Entry>,
                         before: map<string, nat>, order: seq<string>, emitted: seq<Sample>,
                         after: map<string, nat>, order': seq<string>, emitted': seq<Sample>)
    requires Emission(metrics, before, order, emitted)
    requires Emission(metrics, after, order', emitted')
    requires forall k :: k in before && k in after ==> before[k] <= after[k]
    ensures forall i, j ::
              (0 <= i < |order| && 0 <= j < |order'| && order[i] == order'[j] &&
               metrics[order[i]].kind == Counter) ==>
                emitted[i].desc == emitted'[j].desc && emitted[i].valueType == emitted'[j].valueType == CounterValue &&
                emitted[i].value <= emitted'[j].value
  {
  }

  /** Dropping one sample leaves the emission for the snapshot without its name. */
  lemma EmissionRemove(metrics: map<string, Entry>, snapshot: map<string, nat>,
                       order: seq<string>, emitted: seq<Sample>, j: nat)
    requires Emission(metrics, snapshot, order, emitted) && j < |order|
    ensures Emission(metrics, snapshot - {order[j]},
                     order[..j] + order[j + 1..], emitted[..j] + emitted[j + 1..])
  {
    var k := order[j];
    var rest, restE := order[..j] + order[j + 1..], emitted[..j] + emitted[j + 1..];
    assert forall i :: 0 <= i < |rest| ==> rest[i] == order[if i < j then i else i + 1];
    assert forall i :: 0 <= i < |restE| ==> restE[i] == emitted[if i < j then i else i + 1];
    forall n ensures n in rest <==> n in snapshot - {k} && n in metrics {
      if n in rest {
        var i :| 0 <= i < |rest| && rest[i] == n;
        assert n == order[if i < j then i else i + 1];
      }
      if n in snapshot - {k} && n in metrics {
        var i :| 0 <= i < |order| && order[i] == n;
        assert rest[if i < j then i else i - 1] == n;
      }
    }
  }

  /**
   * The samples do not depend on the order the snapshot is walked in: two
   * emissions for the same registry and snapshot are permutations of each
   * other.
   */
  lemma {:induction false} EmissionOrderIrrelevant(metrics: map<string, Entry>, snapshot: map<string, nat>,
                                                   order: seq<string>, emitted: seq<Sample>,
                                                   order': seq<string>, emitted': seq<Sample>)
    requires Emission(metrics, snapshot, order, emitted)
    requires Emission(metrics, snapshot, order', emitted')
    ensures multiset(emitted) == multiset(emitted')
    decreases |order|
  {
    if order != [] {
      var k := order[0];
      assert k in order';
      var j :| 0 <= j < |order'| && order'[j] == k;
      EmissionRemove(metrics, snapshot, order, emitted, 0);
      EmissionRemove(metrics, snapshot, order', emitted', j);
      assert order[..0] + order[1..] == order[1..] && emitted[..0] + emitted[1..] == emitted[1..];
      EmissionOrderIrrelevant(metrics, snapshot - {k}, order[1..], emitted[1..],
                              order'[..j] + order'[j + 1..], emitted'[..j] + emitted'[j + 1..]);
      MultisetMoveToFront(emitted, emitted', j);
    }
  }

  lemma MultisetMoveToFront(e: seq<Sample>, e': seq<Sample>, j: nat)
    requires e != [] && j < |e'| && e[0] == e'[j]
    requires multiset(e[1..]) == multiset(e'[..j] + e'[j + 1..])
    ensures multiset(e) == multiset(e')
  {
    assert e == [e[0]] + e[1..];
    assert e' == e'[..j] + [e'[j]] + e'[j + 1..];
  }

  /** Walking one more name of the snapshot extends the emission by at most one sample. */
  lemma EmissionStep(metrics: map<string, Entry>, done: map<string, nat>,
                     order: seq<string>, emitted: seq<Sample>, k: string, v: nat)
    requires Emission(metrics, done, order, emitted) && k !in done
    ensures k in metrics ==>
              Emission(metrics, done[k := v], order + [k], emitted + [ConstCounterSample(metrics[k], v)])
    ensures k !in metrics ==> Emission(metrics, done[k := v], order, emitted)
  {
    if k in metrics {
      var order', emitted' := order + [k], emitted + [ConstCounterSample(metrics[k], v)];
      forall i | 0 <= i < |order'|
        ensures order'[i] in done[k := v] && order'[i] in metrics
        ensures emitted'[i] == ConstCounterSample(metrics[order'[i]], done[k := v][order'[i]])
      {
        if i < |order| {
          assert order'[i] == order[i] && order[i] in done;
        }
      }
    }
  }

  /**
   * The gauge values after `g.Set(v)` for every gauge named in the snapshot;
   * every other value is kept.
   */
  function GaugesAfter(gauges: map<string, nat>, metrics: map<string, Entry>,
                       snapshot: map<string, nat>): (r: map<string, nat>)
    ensures r.Keys == gauges.Keys
    ensures forall k :: k in gauges && k in snapshot && k in metrics && IsGauge(metrics[k].kind) ==> r[k] == snapshot[k]
    ensures forall k :: k in gauges && !(k in snapshot && k in metrics && IsGauge(metrics[k].kind)) ==> r[k] == gauges[k]
  {
    map k | k in gauges :: if k in snapshot && k in metrics && IsGauge(metrics[k].kind) then snapshot[k] else gauges[k]
  }

  /** Setting one more gauge from the snapshot is one map update. */
  lemma GaugesAfterStep(gauges: map<string, nat>, metrics: map<string, Entry>,
                        done: map<string, nat>, k: string, v: nat)
    requires k !in done
    ensures GaugesAfter(gauges, metrics, done[k := v]) ==
              if k in gauges && k in metrics && IsGauge(metrics[k].kind)
              then GaugesAfter(gauges, metrics, done)[k := v]
              else GaugesAfter(gauges, metrics, done)
  {
  }

  // ---------------------------------------------------------------------------
  // The collector
  // ---------------------------------------------------------------------------

  class Collector {
    const namespace: string
    var metrics: map<string, Entry>
    /** The value each gauge object in `metrics` holds. */
    var gauges: map<string, nat>

    ghost predicate Valid()
      reads this
    {
      metrics == Catalogue(namespace) && gauges.Keys == GaugeNames(metrics)
    }

    /**
     * `NewCollector`: fills the registry entry by entry; every gauge starts
     * at 0. The error result of the source is always nil, so the
     * construction cannot fail.
     */
    constructor (namespace: string)
      ensures Valid() && this.namespace == namespace
      ensures gauges == map["Current Transactions" := 0, "Current Cache Size" := 0]
    {
      var m: map<string, Entry> := map[];
      m := m["Current Transactions" := Entry(Desc(namespace, "current_transactions", "Current Transactions"), Gauge)];
      m := m["Total Transactions" := Entry(Desc(namespace, "transactions_total", "Total Transactions"), Counter)];
      m := m["Current Cache Size" := Entry(Desc(namespace, "current_cache_size", "Current Cache Size"), Gauge)];
      m := m["Cache Hits" := Entry(Desc(namespace, "cache_hits_total", "Total Cache Hits"), Counter)];
      m := m["Cache Misses" := Entry(Desc(namespace, "cache_misses_total", "Total Cache Misses"), Counter)];
      this.namespace := namespace;
      metrics := m;
      gauges := map["Current Transactions" := 0, "Current Cache Size" := 0];
      KindAssertions(Counter);
      KindAssertions(Gauge);
      assert m == Catalogue(namespace);
      assert GaugeNames(m) == {"Current Transactions", "Current Cache Size"};
    }

    /**
     * One scrape: gathers the statistics from the command's output lines,
     * then walks them in some order; for a name in the registry it sets the
     * gauge if the object is a gauge and sends a constant counter sample if
     * the object passes the Counter assertion, which every entry does. The
     * registry itself is left alone.
     */
    method Collect(lines: seq<string>) returns (emitted: seq<Sample>, ghost order: seq<string>)
      requires Valid()
      modifies this`gauges
      ensures Valid()
      ensures Emission(metrics, Snapshot(lines), order, emitted)
      ensures gauges == GaugesAfter(old(gauges), metrics, Snapshot(lines))
    {
      var stats := GatherStats(lines);
      var pending := stats.Keys;
      emitted, order := [], [];
      while pending != {}
        invariant pending <= stats.Keys
        invariant Emission(metrics, stats - pending, order, emitted)
        invariant gauges == GaugesAfter(old(gauges), metrics, stats - pending)
        decreases pending
      {
        var k :| k in pending;
        ghost var done := stats - pending;
        pending := pending - {k};
        assert stats - pending == done[k := stats[k]];
        GaugesAfterStep(old(gauges), metrics, done, k, stats[k]);
        EmissionStep(metrics, done, order, emitted, k, stats[k]);
        if k in metrics {
          var metric := metrics[k];
          KindAssertions(metric.kind);
          if IsGauge(metric.kind) {
            gauges := gauges[k := stats[k]];
          }
          if IsCounter(metric.kind) {
            emitted := emitted + [ConstCounterSample(metric, stats[k])];
            order := order + [k];
          }
        }
      }
      assert stats - pending == stats;
    }
  }

  // ---------------------------------------------------------------------------
  // A worked scrape
  // ---------------------------------------------------------------------------

  lemma ExampleEmission(namespace: string, snapshot: map<string, nat>)
    requires snapshot == map["Current Transactions" := 5, "Cache Hits" := 120]
    ensures Emission(Catalogue(namespace), snapshot, ["Current Transactions", "Cache Hits"],
                     [Sample(Desc(namespace, "current_transactions", "Current Transactions"), CounterValue, 5),
                      Sample(Desc(namespace, "cache_hits_total", "Total Cache Hits"), CounterValue, 120)])
  {
  }

  /**
   * Output holding the current transactions, a line that is not a statistic
   * and the cache hits gives two samples. Both are sent as counter values,
   * the gauge `current_transactions` included.
   */
  lemma CollectExample(namespace: string, lines: seq<string>, order: seq<string>, emitted: seq<Sample>)
    requires lines == ["Current Transactions: 5", "Garbage line", "Cache Hits: 120"]
    requires Emission(Catalogue(namespace), Snapshot(lines), order, emitted)
    ensures |emitted| == 2
    ensures multiset(emitted) ==
              multiset{Sample(Desc(namespace, "current_transactions", "Current Transactions"), CounterValue, 5),
                       Sample(Desc(namespace, "cache_hits_total", "Total Cache Hits"), CounterValue, 120)}
  {
    SnapshotExample(lines);
    ExampleEmission(namespace, Snapshot(lines));
    EmissionOrderIrrelevant(Catalogue(namespace), Snapshot(lines), order, emitted,
                            ["Current Transactions", "Cache Hits"],
                            [Sample(Desc(namespace, "current_transactions", "Current Transactions"), CounterValue, 5),
                             Sample(Desc(namespace, "cache_hits_total", "Total Cache Hits"), CounterValue, 120)]);
    assert |multiset(emitted)| == 2;
  }
}
