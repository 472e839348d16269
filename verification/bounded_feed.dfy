/** The producer side that `VideoStream` and `MultiVideoStream` share: a
    source of frames feeding one bounded FIFO queue. A lane is one source
    with its queue and its `stopped` flag. */
module BoundedFeed {
  import opened Results

  /** The optional `transform` callback; `None` when none was given. */
  type Transform<!F> = Option<Option<F> -> Option<F>>

  /** `Queue.full()` for `Queue(maxsize)`: a non-positive maxsize never fills. */
  predicate Full<T>(queue: seq<T>, maxSize: int) {
    maxSize > 0 && |queue| >= maxSize
  }

  /** The optional per-frame transform, applied to the end-of-stream `None`
      as well: `frame = self.transform(frame)` runs whatever `frame` is. */
  function Apply<F>(transform: Transform<F>, item: Option<F>): Option<F> {
    match transform
    case None => item
    case Some(t) => t(item)
  }

  /** One read from a source that still has `source` to deliver: the next
      frame, or the end-of-stream `None` forever once it is exhausted. */
  function Pull<F>(source: seq<F>): (Option<F>, seq<F>) {
    if |source| == 0 then (None, []) else (Some(source[0]), source[1..])
  }

  datatype Lane<F> = Lane(source: seq<F>, queue: seq<Option<F>>, stopped: bool)

  /** One producer visit of a lane: a stopped lane is skipped, a full queue
      reads nothing, otherwise one item is read; `None` marks the lane
      stopped and is queued (transformed) all the same. */
  function Fill<F>(lane: Lane<F>, maxSize: int, transform: Transform<F>): (r: Lane<F>)
    // a stopped lane or a full queue is left exactly as it was
    ensures lane.stopped || Full(lane.queue, maxSize) ==> r == lane
    ensures !lane.stopped && !Full(lane.queue, maxSize) ==>
              // exactly one source item is consumed and appended at the back
              && (|lane.source| > 0 ==>
                    && r.source == lane.source[1..]
                    && r.queue == lane.queue + [Apply(transform, Some(lane.source[0]))]
                    && !r.stopped)
              // the end-of-stream sentinel is queued and the lane stops
              && (|lane.source| == 0 ==>
                    && r.source == []
                    && r.queue == lane.queue + [Apply(transform, None)]
                    && r.stopped)
    // the flag never goes back, and the queue never exceeds maxsize
    ensures lane.stopped ==> r.stopped
    ensures maxSize > 0 && |lane.queue| <= maxSize ==> |r.queue| <= maxSize
  {
    if lane.stopped || Full(lane.queue, maxSize) then lane
    else
      var (item, rest) := Pull(lane.source);
      Lane(rest, lane.queue + [Apply(transform, item)], item.None?)
  }

  /** `Queue.get()`: the front item, or a wait when the queue is empty. */
  function Take<F>(lane: Lane<F>): (r: Call<(Option<F>, Lane<F>)>)
    ensures |lane.queue| == 0 <==> r == Blocks
    ensures r.Returns? ==> [r.value.0] + r.value.1.queue == lane.queue
    ensures r.Returns? ==> r.value.1.source == lane.source && r.value.1.stopped == lane.stopped
  {
    if |lane.queue| == 0 then Blocks
    else Returns((lane.queue[0], lane.(queue := lane.queue[1..])))
  }

  /** What consumers of a lane see over its whole life: every source frame,
      transformed, in order, then the transformed end-of-stream sentinel. */
  function Expected<F>(frames: seq<F>, transform: Transform<F>): seq<Option<F>>
    decreases |frames|
  {
    if |frames| == 0 then [Apply(transform, None)]
    else [Apply(transform, Some(frames[0]))] + Expected(frames[1..], transform)
  }

  /** What the producer will still queue. */
  function Pending<F>(lane: Lane<F>, transform: Transform<F>): seq<Option<F>> {
    if lane.stopped then [] else Expected(lane.source, transform)
  }

  /** The FIFO invariant of a lane: what was delivered, what is queued and
      what is still to come are, in that order, the lane's whole output. */
  ghost predicate FifoInv<F>(lane: Lane<F>, maxSize: int, transform: Transform<F>,
                              frames: seq<F>, delivered: seq<Option<F>>)
  {
    && delivered + lane.queue + Pending(lane, transform) == Expected(frames, transform)
    && (lane.stopped ==> lane.source == [])
    && (maxSize > 0 ==> |lane.queue| <= maxSize)
  }

  function Fresh<F>(frames: seq<F>): Lane<F> {
    Lane(frames, [], false)
  }

  lemma FreshFifo<F>(frames: seq<F>, maxSize: int, transform: Transform<F>)
    ensures FifoInv(Fresh(frames), maxSize, transform, frames, [])
  {
  }

  /** A producer visit keeps the FIFO invariant. */
  lemma FillKeepsFifo<F>(lane: Lane<F>, maxSize: int, transform: Transform<F>,
                         frames: seq<F>, delivered: seq<Option<F>>)
    requires FifoInv(lane, maxSize, transform, frames, delivered)
    ensures FifoInv(Fill(lane, maxSize, transform), maxSize, transform, frames, delivered)
  {
    var r := Fill(lane, maxSize, transform);
    if !lane.stopped && !Full(lane.queue, maxSize) {
      if |lane.source| > 0 {
        assert Expected(lane.source, transform)
               == [Apply(transform, Some(lane.source[0]))] + Expected(lane.source[1..], transform);
        assert delivered + r.queue + Pending(r, transform)
               == delivered + lane.queue + Pending(lane, transform);
      } else {
        assert delivered + r.queue + Pending(r, transform)
               == delivered + lane.queue + Pending(lane, transform);
      }
    }
  }

  /** A consumer `get` keeps the FIFO invariant once the item is counted as delivered. */
  lemma TakeKeepsFifo<F>(lane: Lane<F>, maxSize: int, transform: Transform<F>,
                         frames: seq<F>, delivered: seq<Option<F>>)
    requires FifoInv(lane, maxSize, transform, frames, delivered)
    requires Take(lane).Returns?
    ensures FifoInv(Take(lane).value.1, maxSize, transform, frames, delivered + [Take(lane).value.0])
  {
    var (item, rest) := Take(lane).value;
    assert delivered + [item] + rest.queue == delivered + lane.queue;
  }

  /** Everything delivered so far is a prefix of the lane's whole output,
      and a stopped, drained lane has delivered all of it. */
  lemma FifoDelivered<F>(lane: Lane<F>, maxSize: int, transform: Transform<F>,
                         frames: seq<F>, delivered: seq<Option<F>>)
    requires FifoInv(lane, maxSize, transform, frames, delivered)
    ensures delivered <= Expected(frames, transform)
    ensures lane.stopped && |lane.queue| == 0 ==> delivered == Expected(frames, transform)
  {
    assert Expected(frames, transform)[..|delivered|] == delivered;
  }
}
