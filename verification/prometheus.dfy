/**
 * The Prometheus text reporter: label values escaped as the text exposition
 * format asks, a line head of name and labels, a line tail with the
 * optional millisecond timestamp, and the HELP/TYPE blocks written for
 * counters, gauges and histograms. Each report returns the text it appends
 * and the updated `ReportState`. How a finite double is printed is the
 * parameter `show`.
 */
module Prometheus {
  import opened Strings
  import opened Numeric
  import opened Doubles
  import opened VariableType
  import opened ReportOptions
  import Histogram

  /** The escape sequence written for one character of a label value. */
  function EscapeChar(c: char): (r: string)
    ensures |r| >= 1 && '\n' !in r
  {
    if c == '\n' then ['\\', 'n']
    else if c == '\\' then ['\\', '\\']
    else if c == '"' then ['\\', '"']
    else [c]
  }

  /** `WriteValue` of a string: newline, backslash and double quote escaped, the rest verbatim. */
  function Escape(s: string): (r: string)
    ensures '\n' !in r
    ensures |r| >= |s|
  {
    if s == [] then [] else EscapeChar(s[0]) + Escape(s[1..])
  }

  /** Reading an escaped label value back, as a Prometheus parser does. */
  function Unescape(s: string): string
  {
    if s == [] then []
    else if s[0] == '\\' && |s| >= 2 then [if s[1] == 'n' then '\n' else s[1]] + Unescape(s[2..])
    else [s[0]] + Unescape(s[1..])
  }

  /** Unescaping undoes escaping, so every label value survives the text format intact. */
  lemma {:induction false} EscapeRoundTrip(s: string)
    ensures Unescape(Escape(s)) == s
  {
    if s != [] {
      var c := s[0];
      var rest := Escape(s[1..]);
      var e := EscapeChar(c) + rest;
      EscapeRoundTrip(s[1..]);
      if c == '\n' || c == '\\' || c == '"' {
        assert e[0] == '\\' && e[2..] == rest;
      } else {
        assert e[0] == c && e[1..] == rest;
      }
      assert s == [c] + s[1..];
    }
  }

  /** `WriteValue` of a double: "Nan", "+Inf" or "-Inf" for the special values, else `show`. */
  function WriteDouble(d: Double, show: real -> string): (r: string)
    ensures d.NaN? ==> r == "Nan"
    ensures d.PosInf? ==> r == "+Inf"
    ensures d.NegInf? ==> r == "-Inf"
    ensures d.Finite? ==> r == show(d.v)
  {
    match d
    case NaN => "Nan"
    case PosInf => "+Inf"
    case NegInf => "-Inf"
    case Finite(v) => show(v)
  }

  /** The value of the extra label of a line head: a double (`le` of a bucket) or a string. */
  datatype LabelValue = DoubleLabel(d: Double) | TextLabel(s: string)

  /** The tags of a variable, in the order the hash map yields them. */
  type Tags = seq<(string, string)>

  /** One label: name, `="`, the escaped value, `"`. */
  function Pair(k: string, v: string): string
  {
    k + "=\"" + Escape(v) + "\""
  }

  /** The label list as `WriteHead` writes it: each pair after the current prefix, which is "," after the first. */
  function Labels(tags: Tags, prefix: string): string
    decreases |tags|
  {
    if tags == [] then "" else prefix + Pair(tags[0].0, tags[0].1) + Labels(tags[1..], ",")
  }

  function Pairs(tags: Tags): (r: seq<string>)
    ensures |r| == |tags| && forall i :: 0 <= i < |tags| ==> r[i] == Pair(tags[i].0, tags[i].1)
  {
    seq(|tags|, i requires 0 <= i < |tags| => Pair(tags[i].0, tags[i].1))
  }

  /** The prefix-threading loop writes the pairs joined by commas. */
  lemma {:induction false} LabelsAreJoined(tags: Tags)
    ensures Labels(tags, "") == Join(Pairs(tags), ",")
  {
    if tags != [] {
      LabelsAfterComma(tags[1..]);
      assert Pairs(tags) == [Pair(tags[0].0, tags[0].1)] + Pairs(tags[1..]);
      if |tags| > 1 {
        JoinCons(Pair(tags[0].0, tags[0].1), Pairs(tags[1..]), ",");
      }
    }
  }

  lemma {:induction false} LabelsAfterComma(tags: Tags)
    ensures tags != [] ==> Labels(tags, ",") == "," + Join(Pairs(tags), ",")
    ensures tags == [] ==> Labels(tags, ",") == ""
    decreases |tags|
  {
    if tags != [] {
      var p := Pair(tags[0].0, tags[0].1);
      LabelsAfterComma(tags[1..]);
      assert Pairs(tags) == [p] + Pairs(tags[1..]);
      if |tags| > 1 {
        JoinCons(p, Pairs(tags[1..]), ",");
      } else {
        assert Pairs(tags) == [p];
      }
    }
  }

  /** The text of a label value: a double rendered, a string escaped. */
  function ValueText(value: LabelValue, show: real -> string): string
  {
    match value
    case DoubleLabel(d) => WriteDouble(d, show)
    case TextLabel(s) => Escape(s)
  }

  /** The extra label: name, `="`, its value's text, `"`. */
  function ExtraLabel(name: string, value: LabelValue, show: real -> string): string
  {
    name + "=\"" + ValueText(value, show) + "\""
  }

  /** The comma between the tags and the extra label, when there are tags. */
  function Comma(tags: Tags): string
  {
    if tags == [] then "" else ","
  }

  /**
   * `WriteHead`: the name and suffix, then braces only when there are no
   * tags or there is an extra label (so a tagged plain sample loses its
   * labels and an untagged one gets "{}"), then a space. With no tags the
   * label list is empty, so the three cases below are the code's two.
   */
  function WriteHead(name: string, tags: Tags, suffix: string, extraName: string, extra: LabelValue, show: real -> string): (r: string)
    ensures tags == [] && extraName == "" ==> r == name + suffix + "{} "
    ensures tags != [] && extraName == "" ==> r == name + suffix + " "
    ensures extraName != "" ==> r == name + suffix + "{" + (Labels(tags, "") + Comma(tags) + ExtraLabel(extraName, extra, show)) + "} "
  {
    if extraName != "" then name + suffix + "{" + (Labels(tags, "") + Comma(tags) + ExtraLabel(extraName, extra, show)) + "} "
    else if tags == [] then name + suffix + "{} "
    else name + suffix + " "
  }

  /** With an extra label the head carries every tag, comma-separated, before the extra one. */
  lemma HeadWithExtraLabel(name: string, tags: Tags, suffix: string, extraName: string, extra: LabelValue, show: real -> string)
    requires extraName != ""
    ensures WriteHead(name, tags, suffix, extraName, extra, show) ==
      name + suffix + "{" + Join(Pairs(tags) + [ExtraLabel(extraName, extra, show)], ",") + "} "
  {
    InnerIsJoin(tags, ExtraLabel(extraName, extra, show));
  }

  lemma InnerIsJoin(tags: Tags, x: string)
    ensures Labels(tags, "") + Comma(tags) + x == Join(Pairs(tags) + [x], ",")
  {
    if tags == [] {
      assert Pairs(tags) + [x] == [x];
      assert Labels(tags, "") + Comma(tags) == "";
    } else {
      LabelsAreJoined(tags);
      JoinSnoc(Pairs(tags), x, ",");
    }
  }

  lemma {:induction false} JoinSnoc(parts: seq<string>, x: string, sep: string)
    requires parts != []
    ensures Join(parts + [x], sep) == Join(parts, sep) + sep + x
    decreases |parts|
  {
    if |parts| == 1 {
      assert (parts + [x])[1..] == [x];
    } else {
      assert (parts + [x])[1..] == parts[1..] + [x];
      JoinSnoc(parts[1..], x, sep);
    }
  }

  /** `WriteTail`: " <ms>" only for a non-zero millisecond timestamp, then the newline. */
  function WriteTail(ms: int): (r: string)
    ensures |r| >= 1 && r[|r| - 1] == '\n'
    ensures ms == 0 <==> r == "\n"
    ensures ms != 0 ==> r == " " + IntToString(ms) + "\n"
  {
    if ms != 0 then " " + IntToString(ms) + "\n" else "\n"
  }

  /** The timestamp of the `_sum` and `_bucket` lines: a default-constructed time, the epoch. */
  const ZERO_MS: int := 0

  /** The optional HELP line; the help text is written as is. */
  function HelpLine(name: string, help: string): string
  {
    if help != "" then "# HELP " + name + " " + help + "\n" else ""
  }

  /** The TYPE line naming the metric type. */
  function TypeLine(name: string, kind: string): string
  {
    "# TYPE " + name + " " + kind + "\n"
  }

  /** One plain sample: the untagged-or-unlabelled head, the value, the tail. */
  function SampleLine(name: string, tags: Tags, value: Double, ms: int, show: real -> string): string
  {
    WriteHead(name, tags, "", "", TextLabel(""), show) + WriteDouble(value, show) + WriteTail(ms)
  }

  /** `report_counter`: one more counter, then HELP (if any), TYPE and the sample line. */
  function ReportCounter(name: string, help: string, tags: Tags, value: Double, ms: int, show: real -> string, st: ReportState): (r: (string, ReportState))
    ensures r.1 == st.(counterCount := st.counterCount + 1)
    ensures help == "" ==> r.0 == TypeLine(name, "counter") + SampleLine(name, tags, value, ms, show)
    ensures help != "" ==> r.0 == "# HELP " + name + " " + help + "\n" + (TypeLine(name, "counter") + SampleLine(name, tags, value, ms, show))
  {
    (HelpLine(name, help) + (TypeLine(name, "counter") + SampleLine(name, tags, value, ms, show)),
     st.(counterCount := st.counterCount + 1))
  }

  /** `report_gauge`: the same block as a counter with type "gauge". */
  function ReportGauge(name: string, help: string, tags: Tags, value: Double, ms: int, show: real -> string, st: ReportState): (r: (string, ReportState))
    ensures r.1 == st.(gaugeCount := st.gaugeCount + 1)
    ensures help == "" ==> r.0 == TypeLine(name, "gauge") + SampleLine(name, tags, value, ms, show)
    ensures help != "" ==> r.0 == "# HELP " + name + " " + help + "\n" + (TypeLine(name, "gauge") + SampleLine(name, tags, value, ms, show))
  {
    (HelpLine(name, help) + (TypeLine(name, "gauge") + SampleLine(name, tags, value, ms, show)),
     st.(gaugeCount := st.gaugeCount + 1))
  }

  /** An untagged plain sample carries empty braces; a tagged one carries no labels at all. */
  lemma SampleLineLabels(name: string, tags: Tags, value: Double, ms: int, show: real -> string)
    ensures tags == [] ==> SampleLine(name, tags, value, ms, show) == name + "{} " + WriteDouble(value, show) + WriteTail(ms)
    ensures tags != [] ==> SampleLine(name, tags, value, ms, show) == name + " " + WriteDouble(value, show) + WriteTail(ms)
  {
    assert name + "" == name;
  }

  /** One `_bucket` line: `le` is the bucket's upper bound, the value its count, no timestamp. */
  function BucketLine(name: string, tags: Tags, b: Histogram.Bucket, show: real -> string): string
  {
    WriteHead(name, tags, "_bucket", "le", DoubleLabel(Finite(b.upper)), show) + IntToString(b.value) + WriteTail(ZERO_MS)
  }

  /** The `_bucket` lines, one per bucket in order. */
  function BucketLines(name: string, tags: Tags, bs: seq<Histogram.Bucket>, show: real -> string): string
    decreases |bs|
  {
    if bs == [] then "" else BucketLine(name, tags, bs[0], show) + BucketLines(name, tags, bs[1..], show)
  }

  /** The upper bound of the last bucket written, minus infinity before any. */
  function LastUpper(bs: seq<Histogram.Bucket>): Double
  {
    if bs == [] then NegInf else Finite(bs[|bs| - 1].upper)
  }

  /**
   * The head of an "+Inf" bucket line, written when the last bound is
   * neither infinite nor the largest double. Only the head is written: no
   * count and no newline follow it.
   */
  function InfHead(name: string, tags: Tags, bs: seq<Histogram.Bucket>, show: real -> string): (r: string)
    ensures bs != [] && bs[|bs| - 1].upper == MAX ==> r == ""
    ensures bs == [] ==> r == WriteHead(name, tags, "_bucket", "le", TextLabel("+Inf"), show)
  {
    var last := LastUpper(bs);
    if last != PosInf && last != Finite(MAX) then WriteHead(name, tags, "_bucket", "le", TextLabel("+Inf"), show) else ""
  }

  /** The `_sum` line: the sum as a double, no timestamp. */
  function SumLine(name: string, tags: Tags, sum: real, show: real -> string): string
  {
    WriteHead(name, tags, "_sum", "", TextLabel(""), show) + WriteDouble(Finite(sum), show) + WriteTail(ZERO_MS)
  }

  /** The `_count` line: the sample count and the report's timestamp. */
  function CountLine(name: string, tags: Tags, count: int, ms: int, show: real -> string): string
  {
    WriteHead(name, tags, "_count", "", TextLabel(""), show) + IntToString(count) + WriteTail(ms)
  }

  /** `report_histogram`: HELP, TYPE, the `_sum` line, the bucket lines, maybe an "+Inf" head, the `_count` line. */
  function ReportHistogram(name: string, help: string, tags: Tags, bs: seq<Histogram.Bucket>, sum: real, count: int,
                           ms: int, show: real -> string, st: ReportState): (r: (string, ReportState))
    ensures r.1 == st.(histCount := st.histCount + 1)
  {
    (HelpLine(name, help) + TypeLine(name, "histogram") + SumLine(name, tags, sum, show) +
     BucketLines(name, tags, bs, show) + InfHead(name, tags, bs, show) + CountLine(name, tags, count, ms, show),
     st.(histCount := st.histCount + 1))
  }

  /**
   * Buckets laid out by `create_buckets` end at the largest double, so a
   * report of them has no "+Inf" line: just the sum, the buckets and the count.
   */
  lemma LaidOutHistogramHasNoInfLine(name: string, help: string, tags: Tags, bs: seq<Histogram.Bucket>, sum: real, count: int,
                                     ms: int, show: real -> string, st: ReportState)
    requires bs != [] && bs[|bs| - 1].upper == MAX
    ensures ReportHistogram(name, help, tags, bs, sum, count, ms, show, st).0 ==
      HelpLine(name, help) + TypeLine(name, "histogram") + SumLine(name, tags, sum, show) +
      BucketLines(name, tags, bs, show) + CountLine(name, tags, count, ms, show)
  {
    var before := HelpLine(name, help) + TypeLine(name, "histogram") + SumLine(name, tags, sum, show) +
      BucketLines(name, tags, bs, show);
    assert InfHead(name, tags, bs, show) == "";
    assert before + "" == before;
  }

  /** The untagged `_count` line of a report without timestamp. */
  lemma UntaggedCountLine(name: string, count: int, show: real -> string)
    ensures CountLine(name, [], count, 0, show) == name + "_count{} " + IntToString(count) + "\n"
  {
  }

  /** The "+Inf" head of an untagged histogram without buckets. */
  lemma UntaggedInfHead(name: string, show: real -> string)
    ensures InfHead(name, [], [], show) == name + "_bucket{le=\"+Inf\"} "
  {
    var x := ExtraLabel("le", TextLabel("+Inf"), show);
    NoTagsBeforeExtra(x);
    InfLabel(show);
    InfBucketText(name);
  }

  lemma NoTagsBeforeExtra(x: string)
    ensures Labels([], "") + Comma([]) + x == x
  {
    assert Labels([], "") == "";
    assert Comma([]) == "";
  }

  lemma InfBucketText(name: string)
    ensures name + "_bucket" + "{" + "le=\"+Inf\"" + "} " == name + "_bucket{le=\"+Inf\"} "
  {
    assert "_bucket" + "{" + "le=\"+Inf\"" + "} " == "_bucket{le=\"+Inf\"} ";
  }

  lemma InfLabel(show: real -> string)
    ensures ExtraLabel("le", TextLabel("+Inf"), show) == "le=\"+Inf\""
  {
    assert Escape("+Inf") == "+Inf";
  }

  /**
   * A histogram without buckets gets the "+Inf" head glued to the `_count`
   * line: an untagged one reads `name_bucket{le="+Inf"} name_count{} <count>`.
   */
  lemma BucketlessHistogramGluesInfHead(name: string, sum: real, count: int, show: real -> string, st: ReportState)
    ensures ReportHistogram(name, "", [], [], sum, count, 0, show, st).0 ==
      TypeLine(name, "histogram") + SumLine(name, [], sum, show) +
      (name + "_bucket{le=\"+Inf\"} ") + (name + "_count{} " + IntToString(count) + "\n")
  {
    UntaggedCountLine(name, count, show);
    UntaggedInfHead(name, show);
    var t := TypeLine(name, "histogram");
    assert HelpLine(name, "") + t == t;
    var a := t + SumLine(name, [], sum, show);
    assert a + BucketLines(name, [], [], show) == a;
  }

  /** The sample a variable gives for the reporter: a double, or a histogram's buckets, sum and count. */
  datatype Sample = Scalar(value: Double) | Hist(buckets: seq<Histogram.Bucket>, sum: real, count: int)

  /**
   * `report_variable`: always one more in `total`; a variable without a
   * metric bit only bumps the no-metric count. Otherwise the gauge report
   * is chosen before the counter one, and a histogram is reported on its
   * own test. The sample must hold the alternative each report reads.
   */
  function ReportVariable(kind: Bits, name: string, help: string, tags: Tags, sample: Sample, ms: int,
                          show: real -> string, st: ReportState): (r: (string, ReportState))
    requires (IsGauge(kind) || IsCounter(kind)) ==> sample.Scalar?
    requires IsHistogram(kind) ==> sample.Hist?
    ensures r.1.total == st.total + 1
    ensures !IsMetric(kind) <==> r.1.noMetricCount == st.noMetricCount + 1
    ensures !IsMetric(kind) ==> r.0 == "" && r.1 == st.(total := st.total + 1, noMetricCount := st.noMetricCount + 1)
    ensures r.1.gaugeCount == st.gaugeCount + (if IsGauge(kind) then 1 else 0)
    ensures r.1.counterCount == st.counterCount + (if IsCounter(kind) && !IsGauge(kind) then 1 else 0)
    ensures r.1.histCount == st.histCount + (if IsHistogram(kind) then 1 else 0)
    ensures r.1.discardCount == st.discardCount
  {
    var s0 := st.(total := st.total + 1);
    if !IsMetric(kind) then ("", s0.(noMetricCount := s0.noMetricCount + 1))
    else
      MetricIsAnyOfThree(kind);
      var first :=
        if IsGauge(kind) then ReportGauge(name, help, tags, sample.value, ms, show, s0)
        else if IsCounter(kind) then ReportCounter(name, help, tags, sample.value, ms, show, s0)
        else ("", s0);
      if IsHistogram(kind) then
        var h := ReportHistogram(name, help, tags, sample.buckets, sample.sum, sample.count, ms, show, first.1);
        (first.0 + h.0, h.1)
      else first
  }

  /** A variable of exactly one metric kind is counted once, under that kind. */
  lemma OneKindCountedOnce(kind: Bits, name: string, help: string, tags: Tags, sample: Sample, ms: int,
                           show: real -> string, st: ReportState)
    requires kind == COUNTER || kind == GAUGE || kind == HISTOGRAM
    requires kind == HISTOGRAM <==> sample.Hist?
    ensures var s := ReportVariable(kind, name, help, tags, sample, ms, show, st).1;
      s.gaugeCount + s.counterCount + s.histCount == st.gaugeCount + st.counterCount + st.histCount + 1 &&
      s.noMetricCount == st.noMetricCount
  {
    assert 0 in COUNTER && 1 in GAUGE && 2 in HISTOGRAM;
    assert IsMetric(kind) by {
      assert kind <= METRIC && kind != {};
    }
    if kind == COUNTER {
      assert !IsGauge(kind) && !IsHistogram(kind);
    } else if kind == GAUGE {
      assert !IsHistogram(kind);
    } else {
      assert !IsGauge(kind) && !IsCounter(kind);
    }
  }
}
