/** The Debug handler of handler/debug.go: a sink that writes every metric of a batch to
    its log instead of sending it anywhere.

    The log is modelled as a ghost sequence of structured lines, `output`; the JSON
    rendering of a metric (`convertToDebug`) is left out, so a metric line carries the
    metric itself. The base handler's channel/timer loop (`Run`) is left out. */
module DebugHandler {
  import opened GoText
  import opened Config

  datatype MetricType = Gauge | CumulativeCounter

  /** A measurement: name, type, value and string dimensions. */
  datatype Metric = Metric(name: string, metricType: MetricType, value: real,
                           dimensions: map<string, string>)

  /** The logger the handler writes to, with the fields it was created with. */
  datatype LogEntry = LogEntry(fields: map<string, string>)

  /** The inbound channel of the handler; only its identity matters here. */
  class MetricChannel {
    constructor() {}
  }

  /** One line written to the handler's log by `emitMetrics`. */
  datatype LogLine =
    | StartingEmit(count: nat)   // "Starting to emit <count> metrics"
    | SkippingEmptyPayload       // the warning for an empty batch
    | MetricLine(metric: Metric) // one metric, rendered

  /** The lines that report a batch of metrics, one per metric, in batch order. */
  function MetricLines(metrics: seq<Metric>): (lines: seq<LogLine>)
    ensures |lines| == |metrics|
    ensures forall i | 0 <= i < |lines| :: lines[i].MetricLine? && lines[i].metric == metrics[i]
  {
    seq(|metrics|, i requires 0 <= i < |metrics| => MetricLine(metrics[i]))
  }

  /** The metrics a log reports, in the order it reports them. */
  function Emitted(log: seq<LogLine>): seq<Metric>
    decreases |log|
  {
    if log == [] then []
    else if log[|log| - 1].MetricLine? then Emitted(log[..|log| - 1]) + [log[|log| - 1].metric]
    else Emitted(log[..|log| - 1])
  }

  lemma {:induction false} EmittedAppend(a: seq<LogLine>, b: seq<LogLine>)
    ensures Emitted(a + b) == Emitted(a) + Emitted(b)
    decreases |b|
  {
    if b != [] {
      var b' := b[..|b| - 1];
      assert (a + b)[..|a + b| - 1] == a + b';
      EmittedAppend(a, b');
    } else {
      assert a + b == a;
    }
  }

  /** The metric lines of a batch report exactly that batch, in order. */
  lemma {:induction false} EmittedOfMetricLines(metrics: seq<Metric>)
    ensures Emitted(MetricLines(metrics)) == metrics
    decreases |metrics|
  {
    if metrics != [] {
      var init := metrics[..|metrics| - 1];
      assert MetricLines(metrics)[..|metrics| - 1] == MetricLines(init);
      EmittedOfMetricLines(init);
    }
  }

  /** Lines that are not metric lines report no metric. */
  lemma EmittedOfNotices(count: nat)
    ensures Emitted([StartingEmit(count)]) == []
    ensures Emitted([StartingEmit(count), SkippingEmptyPayload]) == []
  {
    assert [StartingEmit(count), SkippingEmptyPayload][..1] == [StartingEmit(count)];
  }

  /** The effect of the base handler's common-parameter configuration on one integer
      field, as debug_test.go fixes it: an option present under `key` is coerced with
      `GetAsInt`, the field's current value serving as the default; an absent option
      keeps the current value. */
  function CommonParam(configMap: map<string, Value>, key: string, current: int): (r: int)
    ensures key !in configMap ==> r == current
    ensures key in configMap && configMap[key].Str? && ParseInt64(configMap[key].s).Some? ==>
      r == ParseInt64(configMap[key].s).value
    ensures key in configMap && configMap[key].Str? && ParseInt64(configMap[key].s).None? ==>
      r == current
  {
    if key in configMap then GetAsInt(configMap[key], current) else current
  }

  /** An option written as decimal text sets the field to that number. */
  lemma CommonParamOfDecimal(configMap: map<string, Value>, key: string, n: int, current: int)
    requires MinInt64 <= n <= MaxInt64
    requires key in configMap && configMap[key] == Str(FormatInt(n))
    ensures CommonParam(configMap, key, current) == n
  {
    GetAsIntOfDecimal(n, current);
  }

  class Debug {
    var name: string
    var interval: int
    var maxBufferSize: int
    var channel: MetricChannel
    var log: LogEntry
    /** Everything written to `log` so far. */
    ghost var output: seq<LogLine>

    /** `NewDebug`: a handler named "Debug" over the given channel, interval, buffer size
        and logger, that has logged nothing yet. */
    constructor(channel: MetricChannel, initialInterval: int, initialBufferSize: int,
                log: LogEntry)
      ensures this.name == "Debug"
      ensures this.interval == initialInterval && this.maxBufferSize == initialBufferSize
      ensures this.channel == channel && this.log == log
      ensures this.output == []
    {
      this.name := "Debug";
      this.interval := initialInterval;
      this.maxBufferSize := initialBufferSize;
      this.log := log;
      this.channel := channel;
      this.output := [];
    }

    /** Applies the options `interval` and `max_buffer_size`; nothing else changes. */
    method Configure(configMap: map<string, Value>)
      modifies this`interval, this`maxBufferSize
      ensures interval == CommonParam(configMap, "interval", old(interval))
      ensures maxBufferSize == CommonParam(configMap, "max_buffer_size", old(maxBufferSize))
    {
      interval := CommonParam(configMap, "interval", interval);
      maxBufferSize := CommonParam(configMap, "max_buffer_size", maxBufferSize);
    }

    /** `emitMetrics`: announces the batch size, then refuses an empty batch with a
        warning, or writes one line per metric in batch order and reports success. Only
        the log changes. */
    method EmitMetrics(metrics: seq<Metric>) returns (ok: bool)
      modifies this`output
      ensures ok <==> |metrics| > 0
      ensures output == old(output) + [StartingEmit(|metrics|)] +
        (if |metrics| == 0 then [SkippingEmptyPayload] else MetricLines(metrics))
      ensures Emitted(output) == Emitted(old(output)) + metrics
    {
      output := output + [StartingEmit(|metrics|)];
      ghost var start := output;
      if |metrics| == 0 {
        output := output + [SkippingEmptyPayload];
        EmittedAppend(old(output), [StartingEmit(0), SkippingEmptyPayload]);
        EmittedOfNotices(0);
        return false;
      }
      for i := 0 to |metrics|
        invariant output == start + MetricLines(metrics[..i])
      {
        assert MetricLines(metrics[..i + 1]) == MetricLines(metrics[..i]) + [MetricLine(metrics[i])];
        output := output + [MetricLine(metrics[i])];
      }
      assert metrics[..|metrics|] == metrics;
      EmittedAppend(old(output), [StartingEmit(|metrics|)]);
      EmittedAppend(start, MetricLines(metrics));
      EmittedOfNotices(|metrics|);
      EmittedOfMetricLines(metrics);
      return true;
    }
  }

  /** debug_test.go: an empty option map keeps the constructor's interval and buffer
      size. */
  method ConfigureWithEmptyConfig() returns (interval: int, maxBufferSize: int)
    ensures interval == 12 && maxBufferSize == 13
  {
    var channel := new MetricChannel();
    var h := new Debug(channel, 12, 13, LogEntry(map["testing" := "debug_handler"]));
    h.Configure(map[]);
    interval, maxBufferSize := h.interval, h.maxBufferSize;
  }

  /** debug_test.go: string options are coerced to integers. */
  method ConfigureWithStringOptions() returns (interval: int, maxBufferSize: int)
    ensures interval == 10 && maxBufferSize == 100
  {
    var channel := new MetricChannel();
    var h := new Debug(channel, 12, 13, LogEntry(map["testing" := "debug_handler"]));
    var configMap := map["interval" := Str("10"), "max_buffer_size" := Str("100")];
    assert FormatInt(10) == "10" by {
      assert FormatNat(10) == FormatNat(1) + [DigitChar(0)];
    }
    assert FormatInt(100) == "100" by {
      assert FormatNat(100) == FormatNat(10) + [DigitChar(0)];
      assert FormatNat(10) == FormatNat(1) + [DigitChar(0)];
    }
    CommonParamOfDecimal(configMap, "interval", 10, 12);
    CommonParamOfDecimal(configMap, "max_buffer_size", 100, 13);
    h.Configure(configMap);
    interval, maxBufferSize := h.interval, h.maxBufferSize;
  }
}
