/**
 * The in-memory metrics store of `metrics_ingest` (backend/app/main.py:215-225)
 * and the time window `metrics_summary` reads from it (line 233).
 */
module MetricsStore {
  import opened Wrappers

  /**
   * One ingested payload.  The handler stores the JSON body as sent, so each
   * field may be missing; the readers substitute 0 for a missing field.
   */
  datatype Sample = Sample(
    ts: Option<int>,
    e2eLatencyMs: Option<int>,
    bytesUplink: Option<int>,
    bytesDownlink: Option<int>)

  /** The most samples the store keeps. */
  const Capacity: nat := 10000

  /** The last `k` elements of `s` (all of them when there are fewer). */
  function Newest<T>(s: seq<T>, k: nat): (r: seq<T>)
    ensures |r| == if |s| < k then |s| else k
    ensures forall i :: 0 <= i < |r| ==> r[i] == s[|s| - |r| + i]
  {
    if |s| <= k then s else s[|s| - k..]
  }

  /**
   * `metrics_ingest`: append the sample, then delete the oldest entries
   * beyond `Capacity`.
   */
  function Ingest(store: seq<Sample>, sample: Sample): (r: seq<Sample>)
    ensures |r| <= Capacity
    ensures |r| == if |store| < Capacity then |store| + 1 else Capacity
    ensures r[|r| - 1] == sample
    ensures r == Newest(store + [sample], Capacity)
  {
    var appended := store + [sample];
    if |appended| > Capacity then appended[|appended| - Capacity..] else appended
  }

  /** The store after ingesting `samples` in order. */
  function IngestAll(store: seq<Sample>, samples: seq<Sample>): seq<Sample>
    decreases |samples|
  {
    if |samples| == 0 then store else IngestAll(Ingest(store, samples[0]), samples[1..])
  }

  /** Taking the newest `k` twice, with more appended in between, is taking them once. */
  lemma NewestOfNewest<T>(a: seq<T>, b: seq<T>, k: nat)
    ensures Newest(Newest(a, k) + b, k) == Newest(a + b, k)
  {
    var lhs, rhs := Newest(Newest(a, k) + b, k), Newest(a + b, k);
    assert |lhs| == |rhs|;
    forall i | 0 <= i < |lhs|
      ensures lhs[i] == rhs[i]
    {
      var j := |a + b| - |rhs| + i;
      if j >= |a| {
        assert rhs[i] == b[j - |a|];
      }
    }
  }

  /**
   * Whatever arrives, the store is the newest `Capacity` samples of
   * everything it held and everything ingested since, in arrival order.
   * The store starts empty and `Ingest` never leaves more than `Capacity`.
   */
  lemma {:induction false} IngestAllKeepsNewest(store: seq<Sample>, samples: seq<Sample>)
    requires |store| <= Capacity
    ensures IngestAll(store, samples) == Newest(store + samples, Capacity)
    decreases |samples|
  {
    if |samples| == 0 {
      assert store + samples == store;
    } else {
      var first, rest := samples[0], samples[1..];
      var next := Ingest(store, first);
      calc {
        IngestAll(store, samples);
        IngestAll(next, rest);
        { IngestAllKeepsNewest(next, rest); }
        Newest(next + rest, Capacity);
        { NewestOfNewest(store + [first], rest, Capacity); }
        Newest(store + [first] + rest, Capacity);
        { assert store + [first] + rest == store + samples; }
        Newest(store + samples, Capacity);
      }
    }
  }

  /** `m.get("ts", 0)`. */
  function TsOrZero(m: Sample): int
  {
    m.ts.GetOr(0)
  }

  /**
   * The samples of the summary window: those whose timestamp, 0 when
   * missing, is at least `lo`, in stored order.
   */
  function Window(store: seq<Sample>, lo: int): (r: seq<Sample>)
    ensures |r| <= |store|
    ensures forall m :: m in r <==> m in store && TsOrZero(m) >= lo
    decreases |store|
  {
    if |store| == 0 then []
    else
      var rest := Window(store[1..], lo);
      assert forall m :: m in store <==> m == store[0] || m in store[1..];
      if TsOrZero(store[0]) >= lo then [store[0]] + rest else rest
  }

  /** The window of a concatenation is the concatenation of the windows: stored order is kept. */
  lemma {:induction false} WindowAppend(a: seq<Sample>, b: seq<Sample>, lo: int)
    ensures Window(a + b, lo) == Window(a, lo) + Window(b, lo)
    decreases |a|
  {
    if |a| == 0 {
      assert a + b == b;
    } else {
      assert (a + b)[1..] == a[1..] + b;
      WindowAppend(a[1..], b, lo);
    }
  }

  /** When no timestamp falls below the bound, the window is the whole store. */
  lemma {:induction false} WindowOfRecent(store: seq<Sample>, lo: int)
    requires forall i :: 0 <= i < |store| ==> TsOrZero(store[i]) >= lo
    ensures Window(store, lo) == store
    decreases |store|
  {
    if |store| > 0 {
      WindowOfRecent(store[1..], lo);
    }
  }
}
