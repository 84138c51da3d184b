/**
 * `metrics_summary` (backend/app/main.py:228-260): count, median and 95th
 * percentile latency, frame rate and throughput of the samples whose
 * timestamp lies in the last `duration` seconds.  The clock reading
 * `now_ms` is a parameter; rates are exact reals.
 */
module MetricsSummary {
  import opened Wrappers
  import opened Sorting
  import opened Percentile
  import opened MetricsStore

  /** The window length in seconds when the query names none. */
  const DefaultDuration: int := 30

  /** The JSON object the endpoint returns; `None` is JSON `null`. */
  datatype Summary = Summary(
    count: nat,
    medianLatencyMs: Option<int>,
    p95LatencyMs: Option<int>,
    fps: real,
    kbpsUplink: real,
    kbpsDownlink: real)

  /**
   * The exception the handler can raise: the window bound reads a missing
   * `ts` as 0, but the duration reads `window[-1]["ts"]` and
   * `window[0]["ts"]` without a default.
   */
  datatype SummaryError = MissingTs

  /** The answer for an empty window. */
  const EmptySummary: Summary := Summary(0, None, None, 0.0, 0.0, 0.0)

  /** `m.get("e2e_latency_ms", 0.0)` for each sample of the window. */
  function Latencies(w: seq<Sample>): seq<int>
  {
    seq(|w|, i requires 0 <= i < |w| => w[i].e2eLatencyMs.GetOr(0))
  }

  /** `sum(m.get(field, 0) for m in window)`. */
  function Total(w: seq<Sample>, field: Sample -> Option<int>): int
    decreases |w|
  {
    if |w| == 0 then 0 else field(w[0]).GetOr(0) + Total(w[1..], field)
  }

  /**
   * `duration_s = max(1.0, (last_ts - first_ts) / 1000.0)`: the span of the
   * window in seconds, never below one second, even when the last stored
   * sample is older than the first.
   */
  function DurationSeconds(firstTs: int, lastTs: int): (r: real)
    ensures r >= 1.0
    ensures r >= (lastTs - firstTs) as real / 1000.0
    ensures r == 1.0 || r == (lastTs - firstTs) as real / 1000.0
    ensures lastTs - firstTs <= 1000 ==> r == 1.0
  {
    var span := (lastTs - firstTs) as real / 1000.0;
    if span > 1.0 then span else 1.0
  }

  /**
   * An amount per second over a guarded duration: the division is defined
   * and never inflates the amount.
   */
  function Rate(amount: real, durationS: real): (r: real)
    requires durationS >= 1.0
    ensures amount >= 0.0 ==> 0.0 <= r <= amount
    ensures amount <= 0.0 ==> amount <= r <= 0.0
    ensures amount > 0.0 ==> r > 0.0
    ensures r * durationS == amount
  {
    amount / durationS
  }

  /** Bytes to kilobits: `* 8.0 / 1000.0`. */
  function Kilobits(bytes: int): real
  {
    bytes as real * 8.0 / 1000.0
  }

  /**
   * The summary of a non-empty window whose end samples carry `ts`: sort the
   * latencies, pick the two percentiles and divide by the guarded duration.
   * The percentiles are latencies measured in the window, the median never
   * above the p95, and the frame rate never exceeds the sample count.
   */
  function WindowSummary(w: seq<Sample>): (s: Summary)
    requires |w| > 0 && w[0].ts.Some? && w[|w| - 1].ts.Some?
    ensures s.count == |w|
    ensures s.medianLatencyMs.Some? && s.p95LatencyMs.Some?
    ensures s.medianLatencyMs.value in Latencies(w)
    ensures s.p95LatencyMs.value in Latencies(w)
    ensures s.medianLatencyMs.value <= s.p95LatencyMs.value
    ensures s.medianLatencyMs == Some(Pct(Sort(Latencies(w)), Median))
    ensures s.p95LatencyMs == Some(Pct(Sort(Latencies(w)), P95))
    ensures 0.0 < s.fps <= |w| as real
  {
    var measured := Latencies(w);
    var lats := Sort(measured);
    var durationS := DurationSeconds(w[0].ts.value, w[|w| - 1].ts.value);
    SortedPercentiles(measured);
    Summary(
      |w|,
      Some(Pct(lats, Median)),
      Some(Pct(lats, P95)),
      Rate(|w| as real, durationS),
      Rate(Kilobits(Total(w, (m: Sample) => m.bytesUplink)), durationS),
      Rate(Kilobits(Total(w, (m: Sample) => m.bytesDownlink)), durationS))
  }

  /**
   * `metrics_summary(duration)` at clock reading `nowMs`: the empty summary
   * for an empty window, `KeyError` when an end sample of the window lacks
   * `ts`, and the window's summary otherwise.
   */
  function Summarize(store: seq<Sample>, nowMs: int, duration: int): (r: Result<Summary, SummaryError>)
    ensures var w := Window(store, nowMs - duration * 1000);
      && (|w| == 0 <==> r == Success(EmptySummary))
      && (r.Failure? <==> |w| > 0 && (w[0].ts.None? || w[|w| - 1].ts.None?))
      && (r.Success? ==> r.value.count == |w|)
      && (r.Success? ==> (r.value.medianLatencyMs.Some? <==> |w| > 0))
      && (r.Success? ==> (r.value.p95LatencyMs.Some? <==> |w| > 0))
      && (r.Success? && |w| > 0 ==> r.value.medianLatencyMs.value <= r.value.p95LatencyMs.value)
      && (r.Success? ==> 0.0 <= r.value.fps <= |w| as real)
      && (r.Success? && |w| > 0 ==> r.value.medianLatencyMs == Some(Pct(Sort(Latencies(w)), Median)))
      && (r.Success? && |w| > 0 ==> r.value.p95LatencyMs == Some(Pct(Sort(Latencies(w)), P95)))
  {
    var w := Window(store, nowMs - duration * 1000);
    if |w| == 0 then Success(EmptySummary)
    else if w[|w| - 1].ts.None? || w[0].ts.None? then Failure(MissingTs)
    else Success(WindowSummary(w))
  }

  /** Five samples 100 ms apart, latencies 500, 50, 80, 60, 70 in arrival order. */
  function ExampleStore(): seq<Sample>
  {
    [ Sample(Some(10000), Some(500), Some(1000), Some(0)),
      Sample(Some(10100), Some(50), Some(1000), Some(0)),
      Sample(Some(10200), Some(80), Some(1000), Some(0)),
      Sample(Some(10300), Some(60), Some(1000), Some(0)),
      Sample(Some(10400), Some(70), Some(1000), Some(0)) ]
  }

  /** The example's latencies in arrival order. */
  lemma ExampleLatencies()
    ensures Latencies(ExampleStore()) == [500, 50, 80, 60, 70]
  {
    var lats := Latencies(ExampleStore());
    assert |lats| == 5;
    assert lats[0] == 500 && lats[1] == 50 && lats[2] == 80 && lats[3] == 60 && lats[4] == 70;
  }

  /** The example's latencies, sorted, hold the same values. */
  lemma ExamplePermutation()
    ensures multiset([500, 50, 80, 60, 70]) == multiset([50, 60, 70, 80, 500])
  {
  }

  /** Sorting the example's latencies yields 50, 60, 70, 80, 500. */
  lemma ExampleSorted()
    ensures Sort(Latencies(ExampleStore())) == [50, 60, 70, 80, 500]
  {
    ExampleLatencies();
    ExamplePermutation();
    SortIsSortedPermutation(Latencies(ExampleStore()), [50, 60, 70, 80, 500]);
  }

  /** The example uploads 1000 bytes per sample and downloads nothing. */
  lemma ExampleTotals()
    ensures Total(ExampleStore(), (m: Sample) => m.bytesUplink) == 5000
    ensures Total(ExampleStore(), (m: Sample) => m.bytesDownlink) == 0
  {
    var store := ExampleStore();
    assert store[4..][1..] == [];
    assert store[3..][1..] == store[4..];
    assert store[2..][1..] == store[3..];
    assert store[1..][1..] == store[2..];
  }

  /** All five example samples lie inside the window of the last 30 seconds at 20000 ms. */
  lemma ExampleWindow()
    ensures Window(ExampleStore(), 20000 - DefaultDuration * 1000) == ExampleStore()
  {
    WindowOfRecent(ExampleStore(), 20000 - DefaultDuration * 1000);
  }

  /** The example spans 400 ms, so its rates are taken over one second. */
  lemma ExampleRates()
    ensures DurationSeconds(10000, 10400) == 1.0
    ensures Rate(5 as real, 1.0) == 5.0
    ensures Rate(Kilobits(5000), 1.0) == 40.0
    ensures Rate(Kilobits(0), 1.0) == 0.0
  {
  }

  /** The summary of the example window. */
  lemma ExampleWindowSummary()
    ensures WindowSummary(ExampleStore()) == Summary(5, Some(70), Some(500), 5.0, 40.0, 0.0)
  {
    ExampleSorted();
    FiveSampleExample();
    ExampleTotals();
    ExampleRates();
  }

  /**
   * Over a 30-second window, the five example samples give count 5, median
   * 70, 95th percentile 500, and 5 frames per second because their span is
   * under a second.
   */
  lemma FiveSampleSummary()
    ensures Summarize(ExampleStore(), 20000, DefaultDuration)
      == Success(Summary(5, Some(70), Some(500), 5.0, 40.0, 0.0))
  {
    ExampleWindow();
    ExampleWindowSummary();
  }
}
