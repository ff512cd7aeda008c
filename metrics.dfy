/**
 * The metrics registry: a bounded array of named series, each a counter,
 * a gauge or a cumulative histogram, found or created by name, type and
 * labels before every update.
 */
module Metrics {
  import opened CString
  import opened CLib

  const MaxMetrics: nat := 128
  const MaxLabels: nat := 8
  const MaxBuckets: nat := 16
  /** Size of a metric's name buffer. */
  const NameLen: nat := 128
  /** Size of a metric's help buffer. */
  const HelpLen: nat := 256

  datatype MetricType = Counter | Gauge | Histogram

  datatype Label = Label(key: string, value: string)

  /** A histogram bucket: the observations at most `le`. */
  datatype Bucket = Bucket(le: real, count: nat)

  /**
   * One series. The source keeps the values in a union; each series only
   * ever uses the member of its own type, so they are separate fields here.
   */
  datatype Metric = Metric(
    name: string,
    help: string,
    kind: MetricType,
    labels: seq<Label>,
    counter: nat,
    gauge: real,
    buckets: seq<Bucket>,
    count: nat,
    sum: real)

  /** A series as find_or_create_metric creates it: name and help cut to their buffers, values zero. */
  function NewMetric(name: string, help: string, kind: MetricType, labels: seq<Label>): Metric {
    Metric(Truncate(name, NameLen), Truncate(help, HelpLen), kind, labels, 0, 0.0, [], 0, 0.0)
  }

  /** The fixed-size buffers hold what they hold. */
  predicate WellFormed(m: Metric) {
    |m.name| < NameLen && |m.labels| <= MaxLabels && |m.buckets| <= MaxBuckets
  }

  /** Whether a series answers to a lookup key: its stored name equals `key`, with the same type and labels. */
  predicate Matches(m: Metric, key: string, kind: MetricType, labels: seq<Label>) {
    m.name == key && m.kind == kind && m.labels == labels
  }

  /** The search loop of find_or_create_metric: the first series matching the key. */
  function Lookup(ms: seq<Metric>, key: string, kind: MetricType, labels: seq<Label>): (r: Option<nat>)
    ensures r.Some? ==> r.value < |ms| && Matches(ms[r.value], key, kind, labels) &&
                        forall j :: 0 <= j < r.value ==> !Matches(ms[j], key, kind, labels)
    ensures r.None? ==> forall j :: 0 <= j < |ms| ==> !Matches(ms[j], key, kind, labels)
    decreases |ms|
  {
    if |ms| == 0 then None
    else if Matches(ms[0], key, kind, labels) then Some(0)
    else match Lookup(ms[1..], key, kind, labels)
      case None => None
      case Some(k) => Some(k + 1)
  }

  /**
   * The lookup key of a name. The source compares the caller's full name
   * with the stored copy, which is cut to 127 characters; the key used
   * here is the stored form, so a long name finds its own series again.
   */
  function LookupKey(name: string): string {
    Truncate(name, NameLen)
  }

  /** find_or_create_metric on values: the index of the series and the registry afterwards. */
  datatype Found = Found(index: Option<nat>, metrics: seq<Metric>)

  function FindOrCreate(ms: seq<Metric>, name: string, help: string, kind: MetricType, labels: seq<Label>): Found {
    match Lookup(ms, LookupKey(name), kind, labels)
    case Some(i) => Found(Some(i), ms)
    case None =>
      if |ms| >= MaxMetrics then Found(None, ms)
      else Found(Some(|ms|), ms + [NewMetric(name, help, kind, labels)])
  }

  /**
   * find_or_create_metric returns a series that answers to the name, type
   * and labels; an existing one leaves the registry alone, a new one is
   * appended, and nothing is created once 128 series exist.
   */
  lemma FindOrCreateSpec(ms: seq<Metric>, name: string, help: string, kind: MetricType, labels: seq<Label>)
    ensures var f := FindOrCreate(ms, name, help, kind, labels);
      (f.index.Some? ==> f.index.value < |f.metrics| && Matches(f.metrics[f.index.value], LookupKey(name), kind, labels)) &&
      (f.index.None? <==> |ms| >= MaxMetrics && Lookup(ms, LookupKey(name), kind, labels).None?) &&
      ms <= f.metrics && |f.metrics| <= |ms| + 1 &&
      (|f.metrics| == |ms| + 1 ==> |ms| < MaxMetrics && Lookup(ms, LookupKey(name), kind, labels).None?)
  {
  }

  /** Two lookups that differ in type or labels never return the same series. */
  lemma DistinctKeys(ms: seq<Metric>, key: string, k1: MetricType, l1: seq<Label>, k2: MetricType, l2: seq<Label>)
    requires k1 != k2 || l1 != l2
    requires Lookup(ms, key, k1, l1).Some? && Lookup(ms, key, k2, l2).Some?
    ensures Lookup(ms, key, k1, l1).value != Lookup(ms, key, k2, l2).value
  {
  }

  /** No two series answer to the same name, type and labels. */
  ghost predicate UniqueKeys(ms: seq<Metric>) {
    forall i, j :: 0 <= i < j < |ms| ==> !Matches(ms[j], ms[i].name, ms[i].kind, ms[i].labels)
  }

  /** find_or_create_metric keeps the series unique and well formed, and the registry within 128 series. */
  lemma FindOrCreateKeeps(ms: seq<Metric>, name: string, help: string, kind: MetricType, labels: seq<Label>)
    requires UniqueKeys(ms) && |ms| <= MaxMetrics && |labels| <= MaxLabels
    requires forall i :: 0 <= i < |ms| ==> WellFormed(ms[i])
    ensures var f := FindOrCreate(ms, name, help, kind, labels);
      UniqueKeys(f.metrics) && |f.metrics| <= MaxMetrics && forall i :: 0 <= i < |f.metrics| ==> WellFormed(f.metrics[i])
  {
    var f := FindOrCreate(ms, name, help, kind, labels);
    if |f.metrics| > |ms| {
      var m := f.metrics[|ms|];
      assert m == NewMetric(name, help, kind, labels);
      forall i, j | 0 <= i < j < |f.metrics| ensures !Matches(f.metrics[j], f.metrics[i].name, f.metrics[i].kind, f.metrics[i].labels) {
        if j == |ms| {
          assert !Matches(ms[i], LookupKey(name), kind, labels);
        }
      }
    }
  }

  // ---------------------------------------------------------------------
  // Updates

  /** What an update call does to the series it found. */
  datatype Update =
    | CounterAdd(amount: nat)
    | GaugeSet(value: real)
    | GaugeAdd(delta: real)
    | Observe(value: real, bounds: seq<real>, bucketCount: nat)

  /** The type of series an update call looks for. */
  function KindOf(u: Update): MetricType {
    match u
    case CounterAdd(_) => Counter
    case GaugeSet(_) => Gauge
    case GaugeAdd(_) => Gauge
    case Observe(_, _, _) => Histogram
  }

  /**
   * metrics_histogram_observe on a series: set the bucket bounds if none are
   * set yet, count the value in every bucket whose bound it does not
   * exceed, and add it to count and sum.
   */
  function ObserveIn(m: Metric, value: real, bounds: seq<real>, n: nat): Metric
    requires n <= |bounds|
  {
    var b := if |m.buckets| == 0 then seq(n, i requires 0 <= i < n => Bucket(bounds[i], 0)) else m.buckets;
    m.(buckets := Counted(b, value), count := m.count + 1, sum := m.sum + value)
  }

  /** The bucket update loop: each bucket with value <= le gains one. */
  function Counted(bs: seq<Bucket>, value: real): (r: seq<Bucket>)
    ensures |r| == |bs|
    ensures forall i :: 0 <= i < |bs| ==>
      r[i].le == bs[i].le && r[i].count == bs[i].count + (if value <= bs[i].le then 1 else 0)
  {
    seq(|bs|, i requires 0 <= i < |bs| => if value <= bs[i].le then bs[i].(count := bs[i].count + 1) else bs[i])
  }

  function ApplyTo(m: Metric, u: Update): Metric
    requires u.Observe? ==> u.bucketCount <= |u.bounds|
  {
    match u
    case CounterAdd(a) => m.(counter := m.counter + a)
    case GaugeSet(v) => m.(gauge := v)
    case GaugeAdd(d) => m.(gauge := m.gauge + d)
    case Observe(v, bounds, n) => ObserveIn(m, v, bounds, n)
  }

  /** An update call: find or create the series, then apply the update; -1 when no series could be had. */
  datatype Outcome = Outcome(rc: int, metrics: seq<Metric>)

  function Record(ms: seq<Metric>, name: string, help: string, labels: seq<Label>, u: Update): Outcome
    requires u.Observe? ==> u.bucketCount <= |u.bounds|
  {
    var f := FindOrCreate(ms, name, help, KindOf(u), labels);
    match f.index
    case None => Outcome(-1, ms)
    case Some(i) =>
      if i < |f.metrics| then Outcome(0, f.metrics[i := ApplyTo(f.metrics[i], u)])
      else Outcome(-1, ms)
  }

  /** metrics_counter_inc_by: the value truncated to an unsigned long, as the cast does. */
  function CounterAmount(value: real): nat
    requires value > -1.0
  {
    var t := TruncToInt(value);
    assert t >= 0 by { TruncToIntBounds(value); }
    t
  }

  /**
   * An update fails exactly when the series is missing and 128 already
   * exist, and then changes nothing; otherwise only the found or new series
   * changes, and only in the values of its type.
   */
  lemma RecordSpec(ms: seq<Metric>, name: string, help: string, labels: seq<Label>, u: Update)
    requires u.Observe? ==> u.bucketCount <= |u.bounds|
    ensures var o := Record(ms, name, help, labels, u);
      var f := FindOrCreate(ms, name, help, KindOf(u), labels);
      (o.rc == -1 <==> |ms| >= MaxMetrics && Lookup(ms, LookupKey(name), KindOf(u), labels).None?) &&
      (o.rc == -1 ==> o.metrics == ms) &&
      (o.rc == 0 ==>
        f.index.Some? && |o.metrics| == |f.metrics| &&
        o.metrics[f.index.value] == ApplyTo(f.metrics[f.index.value], u) &&
        forall j :: 0 <= j < |o.metrics| && j != f.index.value ==> o.metrics[j] == f.metrics[j])
  {
    FindOrCreateSpec(ms, name, help, KindOf(u), labels);
  }

  /** Counter increments add exactly their amount; a gauge set overwrites, a gauge add adds. */
  lemma UpdateValues(m: Metric, u: Update)
    requires u.Observe? ==> u.bucketCount <= |u.bounds|
    ensures u.CounterAdd? ==> ApplyTo(m, u).counter == m.counter + u.amount && ApplyTo(m, u).gauge == m.gauge
    ensures u.GaugeSet? ==> ApplyTo(m, u).gauge == u.value && ApplyTo(m, u).counter == m.counter
    ensures u.GaugeAdd? ==> ApplyTo(m, u).gauge == m.gauge + u.delta && ApplyTo(m, u).counter == m.counter
    ensures ApplyTo(m, u).name == m.name && ApplyTo(m, u).kind == m.kind && ApplyTo(m, u).labels == m.labels
  {
  }

  /**
   * An observation counts once and adds its value to the sum; the bounds
   * are taken from the call only while the series has no buckets; every
   * bucket whose bound the value does not exceed gains one, the others
   * stay as they were.
   */
  lemma ObserveSpec(m: Metric, value: real, bounds: seq<real>, n: nat)
    requires n <= |bounds|
    ensures var r := ObserveIn(m, value, bounds, n);
      r.count == m.count + 1 && r.sum == m.sum + value &&
      |r.buckets| == (if |m.buckets| == 0 then n else |m.buckets|) &&
      (forall i :: 0 <= i < |r.buckets| && |m.buckets| > 0 ==>
         r.buckets[i].le == m.buckets[i].le &&
         r.buckets[i].count == m.buckets[i].count + (if value <= m.buckets[i].le then 1 else 0)) &&
      (forall i :: 0 <= i < |r.buckets| && |m.buckets| == 0 ==>
         r.buckets[i] == Bucket(bounds[i], if value <= bounds[i] then 1 else 0))
  {
  }

  /** Buckets stay cumulative: with ascending bounds, counts never decrease from one bucket to the next. */
  lemma CumulativeBuckets(bs: seq<Bucket>, value: real)
    requires forall i, j :: 0 <= i < j < |bs| ==> bs[i].le <= bs[j].le && bs[i].count <= bs[j].count
    ensures var r := Counted(bs, value);
      forall i, j :: 0 <= i < j < |r| ==> r[i].le <= r[j].le && r[i].count <= r[j].count
  {
  }

  // ---------------------------------------------------------------------
  // The name-length finding

  /** The source's lookup: the caller's full name against the stored, truncated one. */
  function LookupAsWritten(ms: seq<Metric>, name: string, kind: MetricType, labels: seq<Label>): Option<nat> {
    Lookup(ms, name, kind, labels)
  }

  /**
   * As written, a name of 128 characters or more never finds its own
   * series: every call with it creates another one until the registry is full.
   */
  lemma LongNameNeverFound(ms: seq<Metric>, name: string, kind: MetricType, labels: seq<Label>)
    requires |name| >= NameLen
    requires forall i :: 0 <= i < |ms| ==> WellFormed(ms[i])
    ensures LookupAsWritten(ms, name, kind, labels).None?
  {
  }

  /** The source's find_or_create_metric: the lookup compares the caller's full name. */
  function FindOrCreateAsWritten(ms: seq<Metric>, name: string, help: string, kind: MetricType, labels: seq<Label>): Found {
    match LookupAsWritten(ms, name, kind, labels)
    case Some(i) => Found(Some(i), ms)
    case None =>
      if |ms| >= MaxMetrics then Found(None, ms)
      else Found(Some(|ms|), ms + [NewMetric(name, help, kind, labels)])
  }

  /** As written, a call with a name of 128 characters or more appends a new series while there is room. */
  lemma LongNameAppends(ms: seq<Metric>, name: string, help: string, kind: MetricType, labels: seq<Label>)
    requires |name| >= NameLen && |ms| < MaxMetrics
    requires forall i :: 0 <= i < |ms| ==> WellFormed(ms[i])
    ensures FindOrCreateAsWritten(ms, name, help, kind, labels) == Found(Some(|ms|), ms + [NewMetric(name, help, kind, labels)])
  {
    LongNameNeverFound(ms, name, kind, labels);
  }

  /**
   * As written, two calls with the same long name leave two series with the
   * same stored name, type and labels: the registry loses its unique keys.
   */
  lemma LongNameDuplicates(ms: seq<Metric>, name: string, help: string, kind: MetricType, labels: seq<Label>)
    requires |name| >= NameLen && |ms| + 1 < MaxMetrics && |labels| <= MaxLabels
    requires forall i :: 0 <= i < |ms| ==> WellFormed(ms[i])
    ensures var f1 := FindOrCreateAsWritten(ms, name, help, kind, labels);
      var f2 := FindOrCreateAsWritten(f1.metrics, name, help, kind, labels);
      |f2.metrics| == |ms| + 2 && f2.index == Some(|ms| + 1) &&
      f2.metrics[|ms|] == f2.metrics[|ms| + 1] && !UniqueKeys(f2.metrics)
  {
    var m := NewMetric(name, help, kind, labels);
    LongNameAppends(ms, name, help, kind, labels);
    assert WellFormed(m);
    var ms1 := ms + [m];
    assert forall i :: 0 <= i < |ms1| ==> WellFormed(ms1[i]);
    LongNameAppends(ms1, name, help, kind, labels);
    var ms2 := ms1 + [m];
    assert Matches(ms2[|ms| + 1], ms2[|ms|].name, ms2[|ms|].kind, ms2[|ms|].labels);
  }

  /** With the stored form as key, a second call finds the series the first one created. */
  lemma CreatedIsFound(ms: seq<Metric>, name: string, help: string, kind: MetricType, labels: seq<Label>)
    requires FindOrCreate(ms, name, help, kind, labels).index.Some?
    ensures var f := FindOrCreate(ms, name, help, kind, labels);
      FindOrCreate(f.metrics, name, help, kind, labels) == f
  {
    var f := FindOrCreate(ms, name, help, kind, labels);
    FindOrCreateSpec(ms, name, help, kind, labels);
    if Lookup(ms, LookupKey(name), kind, labels).None? {
      assert Matches(f.metrics[|ms|], LookupKey(name), kind, labels);
      var r := Lookup(f.metrics, LookupKey(name), kind, labels);
      assert r.Some? && r.value == |ms| by {
        forall j | 0 <= j < |ms| ensures !Matches(f.metrics[j], LookupKey(name), kind, labels) {
          assert f.metrics[j] == ms[j];
        }
      }
    }
  }

  /** The registry, used one call at a time (its mutex is not modelled). */
  class Registry {
    var metrics: seq<Metric>

    ghost predicate Valid()
      reads this
    {
      |metrics| <= MaxMetrics && UniqueKeys(metrics) && forall i :: 0 <= i < |metrics| ==> WellFormed(metrics[i])
    }

    /** metrics_init: no series. */
    constructor ()
      ensures Valid() && metrics == []
    {
      metrics := [];
    }

    /** find_or_create_metric: scan for a matching series, else append one while there is room. */
    method FindOrCreateMetric(name: string, help: string, kind: MetricType, labels: seq<Label>) returns (index: Option<nat>)
      requires Valid() && |labels| <= MaxLabels
      modifies this
      ensures Valid()
      ensures Found(index, metrics) == FindOrCreate(old(metrics), name, help, kind, labels)
    {
      FindOrCreateKeeps(metrics, name, help, kind, labels);
      var key := LookupKey(name);
      var i := 0;
      while i < |metrics|
        invariant i <= |metrics|
        invariant forall j :: 0 <= j < i ==> !Matches(metrics[j], key, kind, labels)
      {
        if metrics[i].name == key && metrics[i].kind == kind && metrics[i].labels == labels {
          return Some(i);
        }
        i := i + 1;
      }
      if |metrics| >= MaxMetrics {
        return None;
      }
      metrics := metrics + [NewMetric(name, help, kind, labels)];
      index := Some(|metrics| - 1);
    }

    /** The update calls: find or create the series, then change its value. */
    method Apply(name: string, help: string, labels: seq<Label>, u: Update) returns (rc: int)
      requires Valid() && |labels| <= MaxLabels
      requires u.Observe? ==> u.bucketCount <= |u.bounds| && u.bucketCount <= MaxBuckets
      modifies this
      ensures Valid()
      ensures Outcome(rc, metrics) == Record(old(metrics), name, help, labels, u)
    {
      var index := FindOrCreateMetric(name, help, KindOf(u), labels);
      if index.None? {
        return -1;
      }
      var i := index.value;
      var m := metrics[i];
      var updated := m;
      match u {
        case CounterAdd(a) =>
          updated := m.(counter := m.counter + a);
        case GaugeSet(v) =>
          updated := m.(gauge := v);
        case GaugeAdd(d) =>
          updated := m.(gauge := m.gauge + d);
        case Observe(v, bounds, n) =>
          updated := ObserveMetric(m, v, bounds, n);
      }
      ghost var before := metrics;
      metrics := metrics[i := updated];
      assert UniqueKeys(metrics) by {
        forall a, b | 0 <= a < b < |metrics| ensures !Matches(metrics[b], metrics[a].name, metrics[a].kind, metrics[a].labels) {
          assert !Matches(before[b], before[a].name, before[a].kind, before[a].labels);
        }
      }
      rc := 0;
    }

    /** metrics_histogram_observe's work on the found series, with its two loops. */
    method ObserveMetric(m: Metric, value: real, bounds: seq<real>, n: nat) returns (r: Metric)
      requires n <= |bounds| && n <= MaxBuckets && |m.buckets| <= MaxBuckets
      ensures r == ObserveIn(m, value, bounds, n)
      ensures |r.buckets| <= MaxBuckets
    {
      var bs := m.buckets;
      if |bs| == 0 {
        var k := 0;
        while k < n
          invariant k <= n && |bs| == k
          invariant forall j :: 0 <= j < k ==> bs[j] == Bucket(bounds[j], 0)
        {
          bs := bs + [Bucket(bounds[k], 0)];
          k := k + 1;
        }
      }
      ghost var start := bs;
      var i := 0;
      while i < |bs|
        invariant i <= |bs| == |start|
        invariant forall j :: 0 <= j < |bs| ==> bs[j] == if j < i then Counted(start, value)[j] else start[j]
      {
        if value <= bs[i].le {
          bs := bs[i := bs[i].(count := bs[i].count + 1)];
        }
        i := i + 1;
      }
      r := m.(buckets := bs, count := m.count + 1, sum := m.sum + value);
    }

    /** metrics_counter_inc_by: add the value cast to unsigned long. */
    method CounterIncBy(name: string, help: string, value: real) returns (rc: int)
      requires Valid() && value > -1.0
      modifies this
      ensures Valid()
      ensures Outcome(rc, metrics) == Record(old(metrics), name, help, [], CounterAdd(CounterAmount(value)))
    {
      rc := Apply(name, help, [], CounterAdd(CounterAmount(value)));
    }

    /** metrics_counter_inc: add one. */
    method CounterInc(name: string, help: string) returns (rc: int)
      requires Valid()
      modifies this
      ensures Valid()
      ensures Outcome(rc, metrics) == Record(old(metrics), name, help, [], CounterAdd(1))
    {
      rc := CounterIncBy(name, help, 1.0);
    }

    /** metrics_counter_inc_labels: add one to the series with these labels. */
    method CounterIncLabels(name: string, help: string, labels: seq<Label>) returns (rc: int)
      requires Valid() && |labels| <= MaxLabels
      modifies this
      ensures Valid()
      ensures Outcome(rc, metrics) == Record(old(metrics), name, help, labels, CounterAdd(1))
    {
      rc := Apply(name, help, labels, CounterAdd(1));
    }

    /** metrics_gauge_set. */
    method SetGauge(name: string, help: string, value: real) returns (rc: int)
      requires Valid()
      modifies this
      ensures Valid()
      ensures Outcome(rc, metrics) == Record(old(metrics), name, help, [], GaugeSet(value))
    {
      rc := Apply(name, help, [], GaugeSet(value));
    }

    /** metrics_gauge_add; metrics_gauge_inc and metrics_gauge_dec are this with +1 and -1. */
    method AddGauge(name: string, help: string, delta: real) returns (rc: int)
      requires Valid()
      modifies this
      ensures Valid()
      ensures Outcome(rc, metrics) == Record(old(metrics), name, help, [], GaugeAdd(delta))
    {
      rc := Apply(name, help, [], GaugeAdd(delta));
    }

    method GaugeInc(name: string, help: string) returns (rc: int)
      requires Valid()
      modifies this
      ensures Valid()
      ensures Outcome(rc, metrics) == Record(old(metrics), name, help, [], GaugeAdd(1.0))
    {
      rc := AddGauge(name, help, 1.0);
    }

    method GaugeDec(name: string, help: string) returns (rc: int)
      requires Valid()
      modifies this
      ensures Valid()
      ensures Outcome(rc, metrics) == Record(old(metrics), name, help, [], GaugeAdd(-1.0))
    {
      rc := AddGauge(name, help, -1.0);
    }

    /** metrics_histogram_observe; at most 16 buckets, as the bucket array holds. */
    method HistogramObserve(name: string, help: string, value: real, bounds: seq<real>, n: nat) returns (rc: int)
      requires Valid() && n <= |bounds| && n <= MaxBuckets
      modifies this
      ensures Valid()
      ensures Outcome(rc, metrics) == Record(old(metrics), name, help, [], Observe(value, bounds, n))
    {
      rc := Apply(name, help, [], Observe(value, bounds, n));
    }
  }
}
