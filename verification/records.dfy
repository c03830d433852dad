/**
  Turning one Prometheus sample into the record the adapter stores in DynamoDB:
  the metric name is promoted out of the label set into `Metric` and into the
  partition key `PartitionId`, which is the metric name, a '-', and the sample's
  local calendar day in the layout "20060102".
 */
module Records {
  import opened Calendar
  import opened GoTime
  import opened DateLayout
  import opened Options

  /** The reserved label holding a series' metric name (`model.MetricNameLabel`). */
  const MetricNameLabel: string := "__name__"

  /** A Prometheus `model.Metric`: label names mapped to label values. */
  type Metric = map<string, string>

  /** A sample value, carried as the text `fmt.Sprintf("%s", v)` renders it as. */
  datatype SampleValue = SampleValue(text: string)

  /** A Prometheus `model.Sample`. */
  datatype Sample = Sample(metric: Metric, value: SampleValue, timestamp: Time)

  /** One DynamoDB item. */
  datatype Record = Record(
    partitionId: string,
    metric: string,
    timestamp: Instant,
    labels: map<string, string>,
    value: string)

  /** `extractLabels`: every label of `metric` except the metric name, with its value. */
  function ExtractLabels(metric: Metric): (labels: map<string, string>)
    ensures MetricNameLabel !in labels
    ensures labels.Keys == metric.Keys - {MetricNameLabel}
    ensures forall l :: l in labels ==> labels[l] == metric[l]
  {
    var labels := map l | l in metric && l != MetricNameLabel :: metric[l];
    assert labels.Keys == metric.Keys - {MetricNameLabel};
    labels
  }

  /** The value of the metric-name label, or "" (Go's zero value) when the label is missing.
      Together with the extracted labels it gives back the whole label set. */
  function MetricName(metric: Metric): (name: string)
    ensures MetricNameLabel !in metric ==> name == ""
    ensures MetricNameLabel in metric ==> ExtractLabels(metric)[MetricNameLabel := name] == metric
  {
    if MetricNameLabel in metric then metric[MetricNameLabel] else ""
  }

  /** The partition key of a sample of metric `name` taken at `t`, days counted in `zone`:
      after the name and a '-' comes a stamp that reads back as the local day of `t`. */
  function PartitionId(name: string, t: Time, zone: Zone): (p: string)
    ensures |name| < |p| && p[..|name|] == name && p[|name|] == '-'
    ensures var day := ParseStamp(p[|name| + 1..]);
            day.Some? && IsValid(day.value) && DaysFromCivil(day.value) == LocalDay(t, zone)
  {
    PartitionKey(name, LocalDate(t, zone))
  }

  /** The partition key of metric `name` on the day `d`: the name, a '-', and a stamp that
      reads back as `d`. */
  function PartitionKey(name: string, d: Date): (p: string)
    requires IsValid(d)
    ensures |name| < |p| && p[..|name|] == name && p[|name|] == '-'
    ensures ParseStamp(p[|name| + 1..]) == Some(d)
  {
    var stamp := DayStamp(d);
    KeyParts(name, stamp);
    StampRoundTrip(d);
    name + "-" + stamp
  }

  /** A metric name with no '-' in it, as every name matching Prometheus's classic
      `[a-zA-Z_:][a-zA-Z0-9_:]*` rule is. */
  predicate DashFree(name: string) {
    forall i :: 0 <= i < |name| ==> name[i] != '-'
  }

  /** The record `putSample` builds for `s`, in the process's time zone `zone`. */
  function ToRecord(s: Sample, zone: Zone): (r: Record)
    ensures MetricNameLabel in s.metric ==> r.metric == s.metric[MetricNameLabel]
    ensures MetricNameLabel !in s.metric ==> r.metric == ""
    ensures r.partitionId == r.metric + "-" + DayStamp(LocalDate(s.timestamp, zone))
    ensures r.labels.Keys == s.metric.Keys - {MetricNameLabel}
    ensures forall l :: l in r.labels ==> r.labels[l] == s.metric[l]
    ensures r.timestamp == ToInstant(s.timestamp)
    ensures 0 <= r.timestamp.nsec < NanosPerSecond && r.timestamp.nsec % NanosPerMilli == 0
    ensures r.timestamp.sec * MillisPerSecond + r.timestamp.nsec / NanosPerMilli == s.timestamp
    ensures r.value == s.value.text
  {
    var name := MetricName(s.metric);
    Record(PartitionId(name, s.timestamp, zone), name, ToInstant(s.timestamp), ExtractLabels(s.metric), s.value.text)
  }

  // ---------------------------------------------------------------------------
  // Labels
  // ---------------------------------------------------------------------------

  /** The metric name's value never reaches the label set: relabelling the name changes nothing. */
  lemma ExtractLabelsIgnoresName(metric: Metric, name: string)
    ensures ExtractLabels(metric[MetricNameLabel := name]) == ExtractLabels(metric)
  {
  }

  /** Any other label is copied as is: setting it before or after extraction is the same. */
  lemma ExtractLabelsKeepsOthers(metric: Metric, l: string, v: string)
    requires l != MetricNameLabel
    ensures ExtractLabels(metric[l := v]) == ExtractLabels(metric)[l := v]
  {
    var m := metric[l := v];
    var e := ExtractLabels(metric);
    var a, b := ExtractLabels(m), e[l := v];
    assert m.Keys == metric.Keys + {l};
    assert a.Keys == m.Keys - {MetricNameLabel};
    assert b.Keys == e.Keys + {l};
    assert a.Keys == b.Keys;
    forall k | k in a
      ensures a[k] == b[k]
    {
      if k == l {
        assert a[k] == m[k] == v;
      } else {
        assert a[k] == m[k] == metric[k] == e[k];
      }
    }
  }

  /** Exactly one entry is dropped when the metric name is present, none otherwise
      (the capacity hint `len(metric)-1` is exact for named series). */
  lemma ExtractLabelsSize(metric: Metric)
    ensures |ExtractLabels(metric)| == if MetricNameLabel in metric then |metric| - 1 else |metric|
  {
    var labels := ExtractLabels(metric);
    assert labels.Keys == metric.Keys - {MetricNameLabel};
    assert |labels| == |labels.Keys|;
    assert |metric| == |metric.Keys|;
  }

  /** Extraction is idempotent, and it is the identity on label sets without a metric name. */
  lemma ExtractLabelsIdempotent(metric: Metric)
    ensures ExtractLabels(ExtractLabels(metric)) == ExtractLabels(metric)
    ensures MetricNameLabel !in metric ==> ExtractLabels(metric) == metric
  {
  }

  /** The record loses nothing of the label set: the metric name and the labels together
      give back the sample's labels whenever the sample carries a metric name. */
  lemma RecordRebuildsMetric(s: Sample, zone: Zone)
    requires MetricNameLabel in s.metric
    ensures var r := ToRecord(s, zone); r.labels[MetricNameLabel := r.metric] == s.metric
  {
  }

  // ---------------------------------------------------------------------------
  // Partition keys
  // ---------------------------------------------------------------------------

  /** Two samples of one metric share a partition exactly when they fall on the same local day. */
  lemma SamePartitionIffSameDay(name: string, t1: Time, t2: Time, zone: Zone)
    ensures PartitionId(name, t1, zone) == PartitionId(name, t2, zone)
        <==> LocalDay(t1, zone) == LocalDay(t2, zone)
  {
    var d1, d2 := LocalDate(t1, zone), LocalDate(t2, zone);
    var p1, p2 := PartitionId(name, t1, zone), PartitionId(name, t2, zone);
    if p1 == p2 {
      var k := |name| + 1;
      assert p1[k..] == DayStamp(d1);
      assert p2[k..] == DayStamp(d2);
      StampInjective(d1, d2);
      DaysFromCivilInjective(d1, d2);
    }
  }

  /** Every sample whose timestamp lies in the local day `day`, at any time of that day,
      lands in the same partition. */
  lemma SameDayWindowSamePartition(name: string, t1: Time, t2: Time, zone: Zone, day: int)
    requires day * SecondsPerDay * MillisPerSecond <= t1 + zone.offset * MillisPerSecond
    requires t1 + zone.offset * MillisPerSecond < (day + 1) * SecondsPerDay * MillisPerSecond
    requires day * SecondsPerDay * MillisPerSecond <= t2 + zone.offset * MillisPerSecond
    requires t2 + zone.offset * MillisPerSecond < (day + 1) * SecondsPerDay * MillisPerSecond
    ensures PartitionId(name, t1, zone) == PartitionId(name, t2, zone)
  {
    LocalDayWindow(t1, zone, day);
    LocalDayWindow(t2, zone, day);
  }

  /** For days in year 0 or later the partition key is the metric name, a '-', and a run of
      digits that reads back as the date; with a four-digit year that run is 8 long. */
  lemma PartitionKeyDecodes(name: string, d: Date)
    requires IsValid(d) && 0 <= d.year
    ensures var p := PartitionKey(name, d);
            p[..|name|] == name && p[|name|] == '-' &&
            AllDigits(p[|name| + 1..]) && ParseStamp(p[|name| + 1..]) == Some(d)
    ensures d.year <= 9999 ==> |PartitionKey(name, d)| == |name| + 9
  {
    var p := PartitionKey(name, d);
    assert p[|name| + 1..] == DayStamp(d);
  }

  /** For days in year 0 or later, distinct (metric, day) pairs never share a partition: the
      stamp has no '-', so the key's last '-' separates the name from the stamp. */
  lemma PartitionKeyInjective(n1: string, d1: Date, n2: string, d2: Date)
    requires IsValid(d1) && 0 <= d1.year
    requires IsValid(d2) && 0 <= d2.year
    ensures PartitionKey(n1, d1) == PartitionKey(n2, d2) <==> n1 == n2 && d1 == d2
  {
    var s1, s2 := DayStamp(d1), DayStamp(d2);
    KeyFromStamp(n1, d1, s1);
    KeyFromStamp(n2, d2, s2);
    if n1 + "-" + s1 == n2 + "-" + s2 {
      DigitsSplit(n1, s1, n2, s2);
      StampInjective(d1, d2);
    }
  }

  /** For metric names without '-', distinct (metric, day) pairs never share a partition, in
      any year: the key's first '-' separates the name from the stamp. */
  lemma PartitionKeyInjectiveForDashFreeNames(n1: string, d1: Date, n2: string, d2: Date)
    requires IsValid(d1) && IsValid(d2)
    requires DashFree(n1) && DashFree(n2)
    ensures PartitionKey(n1, d1) == PartitionKey(n2, d2) <==> n1 == n2 && d1 == d2
  {
    var s1, s2 := DayStamp(d1), DayStamp(d2);
    KeyFromStamp(n1, d1, s1);
    KeyFromStamp(n2, d2, s2);
    if n1 + "-" + s1 == n2 + "-" + s2 {
      DashFreeSplit(n1, s1, n2, s2);
      StampInjective(d1, d2);
    }
  }

  /** A key is its metric name, a '-' and the given stamp of its date. */
  lemma KeyFromStamp(name: string, d: Date, stamp: string)
    requires IsValid(d) && DayStamp(d) == stamp
    ensures PartitionKey(name, d) == name + "-" + stamp
  {
  }

  /** The parts of `name + "-" + stamp`. */
  lemma KeyParts(name: string, stamp: string)
    ensures var p := name + "-" + stamp;
            |name| < |p| && p[..|name|] == name && p[|name|] == '-' && p[|name| + 1..] == stamp
  {
  }

  /** Two keys that split at the same place have the same name and the same stamp. */
  lemma SameSplit(n1: string, s1: string, n2: string, s2: string)
    requires n1 + "-" + s1 == n2 + "-" + s2 && |n1| == |n2|
    ensures n1 == n2 && s1 == s2
  {
    KeyParts(n1, s1);
    KeyParts(n2, s2);
  }

  /** With all-digit stamps, the last '-' of a key is the one after the name. */
  lemma DigitsSplit(n1: string, s1: string, n2: string, s2: string)
    requires AllDigits(s1) && AllDigits(s2)
    requires n1 + "-" + s1 == n2 + "-" + s2
    ensures n1 == n2 && s1 == s2
  {
    KeyParts(n1, s1);
    KeyParts(n2, s2);
    SameSplit(n1, s1, n2, s2);
  }

  /** With dash-free names, the first '-' of a key is the one after the name. */
  lemma DashFreeSplit(n1: string, s1: string, n2: string, s2: string)
    requires DashFree(n1) && DashFree(n2)
    requires n1 + "-" + s1 == n2 + "-" + s2
    ensures n1 == n2 && s1 == s2
  {
    KeyParts(n1, s1);
    KeyParts(n2, s2);
    SameSplit(n1, s1, n2, s2);
  }

  // ---------------------------------------------------------------------------
  // A colliding pair of keys below year 0, worked out digit by digit
  // ---------------------------------------------------------------------------

  /** Below year 0 the stamp starts with '-', and a name ending in '-' can then take the same
      key as another metric: "x" on 1 January of year -1234 and "x-" on 1 January 1234 both
      give "x--12340101". */
  lemma PartitionKeyNegativeYearCollision()
    ensures PartitionKey("x", Date(-1234, 1, 1)) == PartitionKey("x-", Date(1234, 1, 1)) == "x--12340101"
  {
    KeyOfYearMinus1234();
    KeyOfYear1234();
  }

  /** The key of metric "x" on -1234-01-01. */
  lemma KeyOfYearMinus1234()
    ensures PartitionKey("x", Date(-1234, 1, 1)) == "x--12340101"
  {
    StampOfYearMinus1234();
    KeyFromStamp("x", Date(-1234, 1, 1), "-12340101");
    CollidingKeyText();
  }

  /** The key of metric "x-" on 1234-01-01. */
  lemma KeyOfYear1234()
    ensures PartitionKey("x-", Date(1234, 1, 1)) == "x--12340101"
  {
    StampOfYear1234();
    KeyFromStamp("x-", Date(1234, 1, 1), "12340101");
    CollidingKeyText();
  }

  /** The string concatenations the two keys and stamps are made of. */
  lemma CollidingKeyText()
    ensures "x" + "-" + "-12340101" == "x--12340101"
    ensures "x-" + "-" + "12340101" == "x--12340101"
    ensures "-1234" + "01" + "01" == "-12340101"
    ensures "1234" + "01" + "01" == "12340101"
  {
  }

  /** A stamp is its three given fields. */
  lemma StampFromParts(d: Date, year: string, month: string, day: string)
    requires IsValid(d)
    requires PadInt(d.year, 4) == year && PadInt(d.month, 2) == month && PadInt(d.day, 2) == day
    ensures DayStamp(d) == year + month + day
  {
  }

  /** The stamp of -1234-01-01. */
  lemma StampOfYearMinus1234()
    ensures DayStamp(Date(-1234, 1, 1)) == "-12340101"
  {
    PadIntOf1234();
    PadIntOf1();
    StampFromParts(Date(-1234, 1, 1), "-1234", "01", "01");
    CollidingKeyText();
  }

  /** The stamp of 1234-01-01. */
  lemma StampOfYear1234()
    ensures DayStamp(Date(1234, 1, 1)) == "12340101"
  {
    PadIntOf1234();
    PadIntOf1();
    StampFromParts(Date(1234, 1, 1), "1234", "01", "01");
    CollidingKeyText();
  }

  /** The year fields of -1234 and 1234. */
  lemma PadIntOf1234()
    ensures PadInt(-1234, 4) == "-1234" && PadInt(1234, 4) == "1234"
  {
    DecimalOf1234();
  }

  /** The numeral of 1234. */
  lemma DecimalOf1234()
    ensures Decimal(1234) == "1234"
  {
    assert Decimal(1) == "1";
    assert Decimal(12) == "12";
    assert Decimal(123) == "123";
  }

  /** The month and day field of 1. */
  lemma PadIntOf1()
    ensures PadInt(1, 2) == "01"
  {
    assert Decimal(1) == "1";
  }
}
