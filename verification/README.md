# Verified model of the detection demo's server core

The server of this WebRTC object-detection demo (`backend/app/main.py`) is mostly
plumbing around aiortc, OpenCV and ONNX. Four pieces of it are small sequential
state machines, and this project models each one as pure functions over immutable
values, with the clock passed in as a parameter:

- **Signalling relay** (`SignalingRelay`, `relay.dfy`). The `/ws` endpoint keeps a
  registry `rooms` from room id to the room's connections, keyed by client id. A
  connection joins the room named in its query string. Each text message it sends
  goes to every other connection of that room. On disconnect the connection is
  removed, and the room record goes away with its last member. A handler that
  ends with any other exception skips that cleanup and leaves its client
  registered (the `Aborted` event). The socket handle
  is a type parameter. A send yields the set of recipients. Transport send
  failures are a parameter.
- **Bounded metrics store** (`MetricsStore`, `metrics.dfy`). `/metrics/ingest`
  appends a sample, then keeps only the newest 10000. The same module holds the
  time window that the summary filters.
- **Windowed metrics summary** (`MetricsSummary` in `summary.dfy`, with `Sorting`
  in `sorting.dfy` and `Percentile` in `percentile.dfy`). `/metrics/summary`
  filters the window, sorts the latencies and picks the median and the 95th
  percentile by clamped nearest rank. It divides by a duration of at least one
  second.
- **Latest-only result slots** (`LatestResult`, `latest.dfy`). Each `/offer` peer
  connection has one capacity-one result queue, shared by all its tracks and
  drained before each put. Each track numbers its own frames. There is a global
  `latest_result` that every new result overwrites. `/latest` reads the slot, or
  answers a placeholder with frame id -1. `OnFrame` models one iteration of the
  frame loop's body, run once per received frame. The loop header as written
  iterates over `track.recv()`, which does not run that body at all (see
  "## Findings").

`Wrappers` (`wrappers.dfy`) holds the `Option` and `Result` types that the others
share.

The model follows the code in these details:

- The code never prunes samples by age. The store is trimmed only by count, to
  10000 entries, and the window is recomputed on each summary.
- The percentile is the clamped nearest rank, with no interpolation.
- Detection boxes are passed through as the detector returns them, with no
  clamping.
- A sample without `ts` counts as `ts = 0` for the window bound. But the duration
  computation reads `window[0]["ts"]` and `window[-1]["ts"]` with no default. So
  the handler raises `KeyError` when the first or last sample of a non-empty
  window has no `ts`. `Summarize` models this as `Failure(MissingTs)`. It can only
  happen when `now_ms - duration*1000 <= 0`, that is, with an enormous
  `duration`.

## Model

| member | source | states |
|---|---|---|
| SignalingRelay.Join | backend/app/main.py:97-99 | After a join, the client is in the room with its socket. The room key is added only if it was missing. The room's earlier members and every other room are unchanged. |
| SignalingRelay.Broadcast | backend/app/main.py:103-109 | A message from `sender` is attempted to exactly the other members of its room. The ones whose send raises are dropped, and delivery to every remaining recipient still happens. The sender is never a recipient. |
| SignalingRelay.RoomIsolation | backend/app/main.py:103-105 | In a well-formed registry, no member of a different room ever receives a message sent in this room. |
| SignalingRelay.Leave | backend/app/main.py:111-116 | On disconnect the client is removed from its room. The room key is deleted exactly when no other member remains. Other members and other rooms are untouched. A room that is already gone leaves the registry unchanged. |
| SignalingRelay.LeaveUndoesJoin | backend/app/main.py:97-116 | A fresh client that joins and then disconnects restores the registry exactly, whether or not its join created the room. |
| SignalingRelay.JoinPreservesWellFormed | backend/app/main.py:96-99 | A join by a socket that no room holds keeps the registry free of empty rooms and keeps client ids unique across rooms. |
| SignalingRelay.LeavePreservesWellFormed | backend/app/main.py:111-116 | A disconnect keeps the registry free of empty rooms and keeps client ids unique across rooms. |
| SignalingRelay.Step | backend/app/main.py:93-116 | A received message leaves the registry unchanged. It never reaches its sender, reaches only members of its room and none whose send failed, and reaches every other member whose send succeeded. An aborted handler leaves the registry unchanged and its client still a member. Connects, disconnects and aborts deliver nothing. |
| SignalingRelay.StepPreservesWellFormed | backend/app/main.py:93-116 | Every valid connect, message, disconnect or abort keeps the registry free of empty rooms and keeps client ids unique across rooms. |
| SignalingRelay.RunPreservesWellFormed | backend/app/main.py:90-116 | From any well-formed registry, every valid sequence of connects, messages, disconnects and aborts keeps the registry well formed. |
| SignalingRelay.TwoPeersInDefaultRoom | backend/app/main.py:94-109 | Two connections that name no room both join room `default`, and each one's messages are addressed to exactly the other. |
| SignalingRelay.AbortedClientStaysAddressed | backend/app/main.py:101-116 | A handler that ends with an exception other than a disconnect leaves its client in the room, so later messages are still addressed to it. |
| Sorting.Sort | backend/app/main.py:243 | `sorted` returns the latencies in non-decreasing order, as a permutation of its input. |
| Sorting.SortedUnique | backend/app/main.py:243 | Two sorted permutations of the same latencies are equal, so the model's sort agrees with Python's. |
| Percentile.RoundHalfEven | backend/app/main.py:247 | `round` returns an integer within 1/2 of its argument. On a tie it returns the even neighbour. |
| Percentile.RoundHalfEvenUnique | backend/app/main.py:247 | Those two properties determine the rounded value uniquely. |
| Percentile.RoundHalfEvenMonotone | backend/app/main.py:247 | Rounding preserves order. |
| Percentile.PctIndex | backend/app/main.py:247 | The clamped index is always in [0, n-1]. For p in [0, 1] it is within 1/2 of p*(n-1), the nearest rank, and when p*(n-1) lies exactly halfway between two ranks it is the even one, as Python's `round` chooses. p <= 0 selects the first rank and p >= 1 the last. |
| Percentile.PctIndexMonotone | backend/app/main.py:247 | A larger fraction never selects a smaller index. |
| Percentile.Pct | backend/app/main.py:244-248 | On a non-empty list, the percentile is one of the list's values. On an empty list it is 0. On a sorted list, every value up to the selected rank is at most the percentile and every value from that rank on is at least it. |
| Percentile.PctMonotone | backend/app/main.py:244-248 | On a sorted list, the percentile is monotone in p. |
| Percentile.MedianAtMostP95 | backend/app/main.py:255-256 | On the sorted latencies, the median is at most the 95th percentile. |
| Percentile.SortedPercentiles | backend/app/main.py:243-256 | The median and p95 taken from the sorted latencies are latencies that were measured, and the median is at most the p95. |
| Percentile.FiveSampleExample | backend/app/main.py:243-248 | For latencies [50, 60, 70, 80, 500] the median is 70 and the 95th percentile is 500. |
| Percentile.EvenLengthMedians | backend/app/main.py:244-248 | Ties go to the even rank: the median of [10, 20] is 10 and the median of [10, 20, 30, 40] is 30. |
| MetricsStore.Ingest | backend/app/main.py:219-225 | Ingest puts the sample last. The store then has min(10000, old length + 1) entries, never more than 10000, and equals the newest 10000 of the old store followed by the sample. |
| MetricsStore.IngestAllKeepsNewest | backend/app/main.py:216-225 | After any sequence of ingests into a store of at most 10000 entries, the store is the newest 10000 of everything held and ingested, in arrival order. |
| MetricsStore.Window | backend/app/main.py:233 | A sample is in the window exactly when it is stored and its `ts` is at least the bound, a missing `ts` counting as 0. |
| MetricsStore.WindowAppend | backend/app/main.py:233 | The window of a concatenation is the concatenation of the windows, so the window keeps the stored order. |
| MetricsStore.WindowOfRecent | backend/app/main.py:233 | When every stored timestamp is within the bound, the window is the whole store. |
| MetricsSummary.DurationSeconds | backend/app/main.py:249 | The duration is at least one second and at least the window's span. It is exactly one second when the last sample is older than the first or at most one second younger. |
| MetricsSummary.Rate | backend/app/main.py:250-252 | Dividing by the guarded duration is defined, keeps the sign and never exceeds the amount. |
| MetricsSummary.Summarize | backend/app/main.py:228-260 | An empty window, and only an empty window, gives count 0, null percentiles and zero rates. A window whose first or last sample lacks `ts` raises. Otherwise count is the window length, both percentiles are present and are the nearest-rank 50th and 95th percentiles of the window's sorted latencies, the median is at most the p95, and fps is between 0 and the count. |
| MetricsSummary.WindowSummary | backend/app/main.py:243-260 | For a non-empty window whose end samples carry `ts`, the count is the window length. The median and p95 are the nearest-rank 50th and 95th percentiles of the window's sorted latencies, so they are latencies measured in the window, and the median is at most the p95. fps is positive and at most the count. |
| MetricsSummary.FiveSampleSummary | backend/app/main.py:228-260 | Five samples within a 30-second window, with latencies 500, 50, 80, 60, 70, give count 5, median 70, p95 500, 5 fps and 40 kbps uplink. |
| LatestResult.Drain | backend/app/main.py:147-151 | The drain loop leaves the result queue empty. |
| LatestResult.Put | backend/app/main.py:152 | A put succeeds without waiting exactly when the queue is below its capacity of one. It appends the message. |
| LatestResult.Offer | backend/app/main.py:146-152 | Drain-then-put never waits, and leaves the queue holding only the new message. |
| LatestResult.Latest | backend/app/main.py:184-187 | `/latest` returns the stored result. With none stored, it returns frame id -1, zero timestamps and no detections. |
| LatestResult.LatestAfterPublish | backend/app/main.py:184-187 | Reading `/latest` right after a result is published returns that result. |
| LatestResult.LatestIsLastPublished | backend/app/main.py:153-154 | After a sequence of publications, `/latest` returns the last one. |
| LatestResult.OnFrame | backend/app/main.py:124-154 | Each frame of a track gets that track's next frame id, and no other track's counter moves. Its result becomes the only result queued on the connection and the latest result, carrying the frame's capture, receive and inference times and its detections. |
| LatestResult.OnFramesKeepsLatestOnly | backend/app/main.py:124-154 | After any run of frames from any tracks of a connection, the connection's queue holds only the last frame's result, and `/latest` returns it, numbered by its own track's counter, with its capture time and detections. |
| LatestResult.OnFramesCountsPerTrack | backend/app/main.py:128-132 | A track's counter advances by exactly the number of frames that arrived on that track. |
| LatestResult.LatestFrameIdCountsTrackFrames | backend/app/main.py:128-154 | On a new connection, the frame id `/latest` returns is the number of frames its track has delivered so far. |
| LatestResult.RecvFramesAsWritten | backend/app/main.py:131 | The frame loop as written processes no frame: the connection and the latest slot stay as they were. |
| LatestResult.AsWrittenTrackPublishesNothing | backend/app/main.py:131-154 | After one frame on a new connection, `/latest` still answers the placeholder as written, but answers frame 1 when the loop body runs per frame. |
| LatestResult.Infer | backend/app/main.py:190-212 | When the upload decodes and the detector returns, `/infer` echoes the posted frame id and capture time with the server's receive and inference times and the detections, and the response becomes what `/latest` returns. When the upload does not decode or the detector raises, there is no response and `/latest` is unchanged. |

## Left out

- `SimpleDetector` (lines 32-77). OpenCV, NumPy randomness and ONNX loading are foreign calls. Detections are a parameter.
- The `/offer` session negotiation, `on_track` task scheduling, `connectionstatechange`, `notifier` and the frame pacing sleep (lines 120-181). They are WebRTC plumbing and concurrency. Only the per-connection queue, the per-track counters and the per-frame result assembly and drain-then-put of lines 124-154 are modelled. Frames of different tracks are taken one at a time, in a single arrival sequence.
- JPEG decoding in `/infer` (lines 197-199). It is a library call. Its outcome is the optional reading `Infer` takes: `None` for an upload that does not decode, since the detector then fails on line 54.
- A `detector.infer` call that raises inside the frame loop (line 137) ends that track's task for good; later frames of the track are never processed. The frame loop model assumes every detector call returns.
- `time.time()`. Clock readings are parameters.
- FastAPI routing, CORS, the `MODE` setting and the `/` status endpoint (lines 18-29, 84-86). They are configuration and I/O.
- Websocket I/O and per-sender message ordering. Ordering is a property of the event loop and the transport, which are not modelled. Send failures are a parameter.
- Reuse of `id(ws)` after a socket is freed. The well-formedness lemmas assume a new socket's id is held by no room.
- Metric payload values other than integers or absent keys, such as floats, strings or `null`. Python's comparison, sort and sum on those differ or raise.
- The client-side session negotiation and frame pipeline. The TypeScript frontend is not part of this model.
- Percentile.PctIndex: uses exact rationals for `p * (n - 1)`. It does not model the IEEE double rounding of `0.95 * (n - 1)`.
- MetricsSummary.Summarize: computes fps and kbps over exact reals, not IEEE doubles.
- MetricsSummary.Rate: states the divisor guard and bounds over exact reals, not IEEE doubles.

## Findings

| source | as written | input that shows it | evidently intended | confidence | as-written member | corrected member |
|---|---|---|---|---|---|---|
| backend/app/main.py:131 | `async for frame in track.recv()` iterates over the result of `recv()`, a coroutine returning one frame, which is not an asynchronous iterator. The task raises `TypeError` before its first iteration, so no frame is numbered, queued or published. | A video track delivering one frame to a new connection: `/latest` still answers frame id -1. | Await `track.recv()` once per frame and run the loop body for each. | medium; not executed; relies on aiortc's `MediaStreamTrack.recv` being a coroutine function, and aiortc is not part of this model | LatestResult.AsWrittenTrackPublishesNothing | LatestResult.OnFramesKeepsLatestOnly |
