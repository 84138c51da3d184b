/**
 * The latest-only result slots of the inference paths: the capacity-one
 * `result_queue` of a WebRTC peer connection, shared by its tracks and
 * drained before each put (backend/app/main.py:124, 146-152), the global
 * `latest_result` overwritten by every new result (lines 153-154 and
 * 203-211), and its read at `/latest` (lines 184-187).  Clock readings and detector output
 * are parameters.
 */
module LatestResult {
  import opened Wrappers

  /** A frame id: the track's counter, or the text a client posted to `/infer`. */
  datatype FrameId = Counter(n: int) | Label(text: string)

  /** One detected object, in normalised coordinates. */
  datatype Detection = Detection(objectLabel: string, score: real, xmin: real, ymin: real, xmax: real, ymax: real)

  /** The per-frame JSON contract. */
  datatype InferenceResult = InferenceResult(
    frameId: FrameId,
    captureTs: int,
    recvTs: int,
    inferenceTs: int,
    detections: seq<Detection>)

  /** `asyncio.Queue(maxsize=1)`. */
  const QueueCapacity: nat := 1

  /** What `/latest` answers before any result exists. */
  const NoResult: InferenceResult := InferenceResult(Counter(-1), 0, 0, 0, [])

  /** `while not result_queue.empty(): result_queue.get_nowait()`. */
  function Drain<M>(q: seq<M>): (r: seq<M>)
    ensures r == []
    decreases |q|
  {
    if |q| == 0 then q else Drain(q[1..])
  }

  /**
   * `result_queue.put(m)` without waiting: the queue grown by `m`, or `None`
   * when it is full and the put would wait for a consumer.
   */
  function Put<M>(q: seq<M>, m: M): (r: Option<seq<M>>)
    ensures r.Some? <==> |q| < QueueCapacity
    ensures r.Some? ==> r.value[..|q|] == q && r.value[|q|..] == [m]
  {
    if |q| < QueueCapacity then Some(q + [m]) else None
  }

  /**
   * Drain, then put: whatever the queue held, the put never waits and the
   * queue then holds exactly the new message.
   */
  function Offer<M>(q: seq<M>, m: M): (r: Option<seq<M>>)
    ensures r == Some([m])
  {
    Put(Drain(q), m)
  }

  /** `latest_result = message`. */
  function Publish(slot: Option<InferenceResult>, m: InferenceResult): Option<InferenceResult>
  {
    Some(m)
  }

  /** `/latest`: the stored result, or the placeholder with frame id -1 and no detections. */
  function Latest(slot: Option<InferenceResult>): (r: InferenceResult)
    ensures slot.Some? ==> r == slot.value
    ensures slot.None? ==> r.frameId == Counter(-1) && r.detections == []
    ensures slot.None? ==> r.captureTs == 0 && r.recvTs == 0 && r.inferenceTs == 0
  {
    slot.GetOr(NoResult)
  }

  /** Reading `/latest` right after a publication returns what was published. */
  lemma LatestAfterPublish(slot: Option<InferenceResult>, m: InferenceResult)
    ensures Latest(Publish(slot, m)) == m
  {
  }

  /** The slot after a sequence of publications. */
  function PublishAll(slot: Option<InferenceResult>, ms: seq<InferenceResult>): Option<InferenceResult>
    decreases |ms|
  {
    if |ms| == 0 then slot else PublishAll(Publish(slot, ms[0]), ms[1..])
  }

  /** Last writer wins: after publications, `/latest` returns the last of them. */
  lemma {:induction false} LatestIsLastPublished(slot: Option<InferenceResult>, ms: seq<InferenceResult>)
    ensures |ms| == 0 ==> Latest(PublishAll(slot, ms)) == Latest(slot)
    ensures |ms| > 0 ==> Latest(PublishAll(slot, ms)) == ms[|ms| - 1]
    decreases |ms|
  {
    if |ms| > 0 {
      LatestIsLastPublished(Publish(slot, ms[0]), ms[1..]);
      if |ms| > 1 {
        assert ms[1..][|ms[1..]| - 1] == ms[|ms| - 1];
      }
    }
  }

  /** The clock readings and detector output for one received frame. */
  datatype FrameReading = FrameReading(captureTs: int, recvTs: int, inferenceTs: int, detections: seq<Detection>)

  /** A video track of a peer connection, by the order it arrived in. */
  type TrackId = nat

  /**
   * One `/offer` peer connection: the frame counter of each of its tracks
   * (`frame_id`, local to one `recv_frames` task) and its one result queue,
   * which every track of the connection shares.
   */
  datatype Connection = Connection(frameIds: map<TrackId, int>, queue: seq<InferenceResult>)

  /** A connection before any frame: no counter has moved, the queue is empty. */
  const NewConnection: Connection := Connection(map[], [])

  /** The counter of track `t`; a track starts at 0. */
  function FrameCount(c: Connection, t: TrackId): int
  {
    if t in c.frameIds then c.frameIds[t] else 0
  }

  /** The connection and the global slot after one frame. */
  datatype FrameStep = FrameStep(conn: Connection, latest: Option<InferenceResult>)

  /**
   * One iteration of the loop of `recv_frames` for track `t` (lines 132-154):
   * number the frame, assemble its result, keep it as the only queued result
   * of the connection and publish it.  The iteration has no suspension point
   * before its final sleep (the queue has room once drained), so iterations
   * of different tracks do not interleave.
   */
  function OnFrame(c: Connection, latest: Option<InferenceResult>, t: TrackId, f: FrameReading): (r: FrameStep)
    ensures FrameCount(r.conn, t) == FrameCount(c, t) + 1
    ensures forall u :: u != t ==> FrameCount(r.conn, u) == FrameCount(c, u)
    ensures r.latest.Some? && r.conn.queue == [r.latest.value]
    ensures r.latest.value.frameId == Counter(FrameCount(r.conn, t))
    ensures r.latest.value.captureTs == f.captureTs && r.latest.value.detections == f.detections
    ensures r.latest.value.recvTs == f.recvTs && r.latest.value.inferenceTs == f.inferenceTs
  {
    var id := FrameCount(c, t) + 1;
    var message := InferenceResult(Counter(id), f.captureTs, f.recvTs, f.inferenceTs, f.detections);
    FrameStep(Connection(c.frameIds[t := id], Offer(c.queue, message).value), Publish(latest, message))
  }

  /** A frame and the track it arrived on. */
  datatype TrackFrame = TrackFrame(track: TrackId, reading: FrameReading)

  /** The connection and the global slot after a run of frames, from any of its tracks. */
  function OnFrames(c: Connection, latest: Option<InferenceResult>, fs: seq<TrackFrame>): FrameStep
    decreases |fs|
  {
    if |fs| == 0 then FrameStep(c, latest)
    else
      var step := OnFrame(c, latest, fs[0].track, fs[0].reading);
      OnFrames(step.conn, step.latest, fs[1..])
  }

  /** How many frames of `fs` arrived on track `t`. */
  function FramesOf(fs: seq<TrackFrame>, t: TrackId): nat
    decreases |fs|
  {
    if |fs| == 0 then 0 else (if fs[0].track == t then 1 else 0) + FramesOf(fs[1..], t)
  }

  /**
   * Whatever the tracks, after a run of frames the connection's queue holds
   * only the result of the last frame and `/latest` returns it, numbered by
   * its own track's counter.
   */
  lemma {:induction false} OnFramesKeepsLatestOnly(c: Connection, latest: Option<InferenceResult>, fs: seq<TrackFrame>)
    requires |fs| > 0
    ensures var r := OnFrames(c, latest, fs);
      && r.latest.Some?
      && r.conn.queue == [r.latest.value]
      && Latest(r.latest).frameId == Counter(FrameCount(r.conn, fs[|fs| - 1].track))
      && Latest(r.latest).detections == fs[|fs| - 1].reading.detections
      && Latest(r.latest).captureTs == fs[|fs| - 1].reading.captureTs
    decreases |fs|
  {
    var step := OnFrame(c, latest, fs[0].track, fs[0].reading);
    if |fs| > 1 {
      OnFramesKeepsLatestOnly(step.conn, step.latest, fs[1..]);
      assert fs[1..][|fs[1..]| - 1] == fs[|fs| - 1];
    }
  }

  /** Each track numbers its own frames: its counter moves by its frames only. */
  lemma {:induction false} OnFramesCountsPerTrack(c: Connection, latest: Option<InferenceResult>, fs: seq<TrackFrame>, t: TrackId)
    ensures FrameCount(OnFrames(c, latest, fs).conn, t) == FrameCount(c, t) + FramesOf(fs, t)
    decreases |fs|
  {
    if |fs| > 0 {
      var step := OnFrame(c, latest, fs[0].track, fs[0].reading);
      OnFramesCountsPerTrack(step.conn, step.latest, fs[1..], t);
    }
  }

  /**
   * On a new connection, the result `/latest` returns carries the number of
   * frames its track has delivered so far.
   */
  lemma LatestFrameIdCountsTrackFrames(latest: Option<InferenceResult>, fs: seq<TrackFrame>)
    requires |fs| > 0
    ensures Latest(OnFrames(NewConnection, latest, fs).latest).frameId == Counter(FramesOf(fs, fs[|fs| - 1].track))
  {
    OnFramesKeepsLatestOnly(NewConnection, latest, fs);
    OnFramesCountsPerTrack(NewConnection, latest, fs, fs[|fs| - 1].track);
  }

  /**
   * `recv_frames` as written (line 131): `async for` over `track.recv()`,
   * which is a coroutine and not an asynchronous iterator, raises before the
   * first iteration, inside a task nobody awaits.  No frame is numbered,
   * queued or published.
   */
  function RecvFramesAsWritten(c: Connection, latest: Option<InferenceResult>, t: TrackId, fs: seq<FrameReading>): (r: FrameStep)
    ensures r.conn == c && r.latest == latest
  {
    FrameStep(c, latest)
  }

  /**
   * One frame on a fresh connection: as written, `/latest` still answers the
   * placeholder; with the loop body run per frame, it answers frame 1.
   */
  lemma AsWrittenTrackPublishesNothing(f: FrameReading)
    ensures Latest(RecvFramesAsWritten(NewConnection, None, 0, [f]).latest) == NoResult
    ensures Latest(OnFrames(NewConnection, None, [TrackFrame(0, f)]).latest).frameId == Counter(1)
    ensures Latest(OnFrames(NewConnection, None, [TrackFrame(0, f)]).latest) != NoResult
  {
    OnFramesKeepsLatestOnly(NewConnection, None, [TrackFrame(0, f)]);
  }

  /**
   * The answer of `/infer` and the slot after it.  There is no answer when
   * the handler raises.
   */
  datatype InferStep = InferStep(response: Option<InferenceResult>, latest: Option<InferenceResult>)

  /**
   * `/infer` (lines 190-212).  The reading is `None` when the upload does not
   * decode to an image (`cv2.imdecode` then yields `None`, and the detector
   * fails on it, line 54) or the detector call raises: the handler ends
   * before line 211 and the slot keeps its value.  Otherwise the posted frame
   * id and capture time are echoed with the server's clock readings and the
   * detections, and the response becomes the latest result.
   */
  function Infer(latest: Option<InferenceResult>, frameId: string, captureTs: int, f: Option<FrameReading>): (r: InferStep)
    ensures r.response.Some? <==> f.Some?
    ensures f.None? ==> r.latest == latest
    ensures f.Some? ==> r.response.value.frameId == Label(frameId) && r.response.value.captureTs == captureTs
    ensures f.Some? ==> r.response.value.detections == f.value.detections
    ensures f.Some? ==> r.response.value.recvTs == f.value.recvTs && r.response.value.inferenceTs == f.value.inferenceTs
    ensures f.Some? ==> Latest(r.latest) == r.response.value
  {
    match f
    case None => InferStep(None, latest)
    case Some(reading) =>
      var response := InferenceResult(Label(frameId), captureTs, reading.recvTs, reading.inferenceTs, reading.detections);
      InferStep(Some(response), Publish(latest, response))
  }
}
