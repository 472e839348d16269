/** `VideoStream`: one producer thread moving frames from a capture into a
    bounded queue, modelled as a sequential transition system. Every public
    call and every iteration of the producer loop is one atomic step. */
module VideoStream {
  import opened Results
  import opened BoundedFeed

  datatype Stream<F> = Stream(
    feed: Lane<F>,      // the capture's remaining frames, the queue `Q` and `stopped`
    maxSize: int,       // `queue_size`
    captureOpen: bool,  // the capture has not been released
    started: bool,      // `start()` has run the producer thread
    exited: bool)       // the producer thread has left its loop

  /** The constructor: an open capture, an empty queue, not stopped. */
  function Init<F>(frames: seq<F>, maxSize: int): Stream<F> {
    Stream(Fresh(frames), maxSize, true, false, false)
  }

  /** `start()`: `Thread.start()` a second time raises `RuntimeError`. */
  function Start<F>(s: Stream<F>): (r: Result<Stream<F>>)
    ensures r.Ok? <==> !s.started
    ensures r.Err? ==> r.error == RuntimeError
    ensures r.Ok? ==> r.value.started && r.value.(started := s.started) == s
  {
    if s.started then Err(RuntimeError) else Ok(s.(started := true))
  }

  /** One iteration of `update`: leave the loop and release the capture once
      stopped; otherwise sleep on a full queue or move one item. */
  function ProducerStep<F>(s: Stream<F>, transform: Transform<F>): (r: Stream<F>)
    // no thread, no step
    ensures !s.started || s.exited ==> r == s
    // once stopped, the loop exits on its next check and releases the capture
    ensures s.started && !s.exited && s.feed.stopped ==>
              r == s.(captureOpen := false, exited := true)
    // a full queue: nothing is read and nothing changes
    ensures s.started && !s.exited && !s.feed.stopped && Full(s.feed.queue, s.maxSize) ==> r == s
    // otherwise exactly one item moves from the capture to the back of the queue
    ensures s.started && !s.exited && !s.feed.stopped ==>
              && r.feed == Fill(s.feed, s.maxSize, transform)
              && !r.exited
              && r.captureOpen == (s.captureOpen && !r.feed.stopped)
    ensures s.feed.stopped ==> r.feed.stopped
    ensures r.maxSize == s.maxSize && r.started == s.started
  {
    if !s.started || s.exited then s
    else if s.feed.stopped then s.(captureOpen := false, exited := true)
    else
      var feed := Fill(s.feed, s.maxSize, transform);
      // reading the empty capture releases it (`VideoCapture.read`)
      s.(feed := feed, captureOpen := s.captureOpen && !feed.stopped)
  }

  /** `read()`: `Q.get()`, which waits while the queue is empty. */
  function Read<F>(s: Stream<F>): (r: Call<(Option<F>, Stream<F>)>)
    ensures r == Blocks <==> |s.feed.queue| == 0
    ensures r.Returns? ==>
              && [r.value.0] + r.value.1.feed.queue == s.feed.queue
              && r.value.1 == s.(feed := r.value.1.feed)
              && r.value.1.feed.stopped == s.feed.stopped
              && r.value.1.feed.source == s.feed.source
  {
    match Take(s.feed)
    case Returns((item, feed)) => Returns((item, s.(feed := feed)))
    case _ => Blocks
  }

  /** `more()`, observed when it returns: its bounded wait only gives the
      producer time to run, and the answer is whether the queue holds an item. */
  predicate More<F>(s: Stream<F>) {
    |s.feed.queue| > 0
  }

  /** `running()`. */
  predicate Running<F>(s: Stream<F>) {
    More(s) || !s.feed.stopped
  }

  /** `stop()`: join the producer (an error before `start()`, a wait while it
      runs), then set `stopped`. */
  function Stop<F>(s: Stream<F>): (r: Call<Stream<F>>)
    ensures !s.started <==> r == Raises(RuntimeError)
    ensures s.started && !s.exited <==> r == Blocks
    ensures r.Returns? ==> r.value.feed.stopped && r.value == s.(feed := s.feed.(stopped := true))
  {
    if !s.started then Raises(RuntimeError)
    else if !s.exited then Blocks
    else Returns(s.(feed := s.feed.(stopped := true)))
  }

  /** A call to `stop()` that returned returns the same state when repeated. */
  lemma StopIdempotent<F>(s: Stream<F>)
    requires Stop(s).Returns?
    ensures Stop(Stop(s).value) == Stop(s)
  {
  }

  /** The steps of a run: consumer calls and producer loop iterations. */
  datatype Event = StartCall | ProducerIteration | ReadCall | StopCall

  /** One event; a call that would wait or raise is not taken. The second
      component is the item a `read()` delivered, if any. */
  function Next<F>(s: Stream<F>, transform: Transform<F>, e: Event): (r: (Stream<F>, Option<Option<F>>))
    // `stopped` is never reset to False
    ensures s.feed.stopped ==> r.0.feed.stopped
    // a delivered item is the front of the queue
    ensures r.1.Some? ==> e == ReadCall && |s.feed.queue| > 0 && r.1.value == s.feed.queue[0]
    ensures r.0.maxSize == s.maxSize
  {
    match e
    case StartCall =>
      (match Start(s) case Ok(s') => (s', None) case Err(_) => (s, None))
    case ProducerIteration => (ProducerStep(s, transform), None)
    case ReadCall =>
      (match Read(s) case Returns((item, s')) => (s', Some(item)) case _ => (s, None))
    case StopCall =>
      (match Stop(s) case Returns(s') => (s', None) case _ => (s, None))
  }

  /** Runs `events` in order, appending what the consumer reads to `delivered`. */
  function Run<F>(s: Stream<F>, transform: Transform<F>, events: seq<Event>, delivered: seq<Option<F>>)
    : (r: (Stream<F>, seq<Option<F>>))
    ensures r.0.maxSize == s.maxSize
    ensures s.feed.stopped ==> r.0.feed.stopped
    ensures delivered <= r.1
    decreases |events|
  {
    if |events| == 0 then (s, delivered)
    else
      var (s', item) := Next(s, transform, events[0]);
      Run(s', transform, events[1..], if item.Some? then delivered + [item.value] else delivered)
  }

  /** The invariant of every reachable state: the FIFO invariant of the
      queue, the bound, and the thread/capture life cycle. */
  ghost predicate Inv<F>(s: Stream<F>, transform: Transform<F>, frames: seq<F>, delivered: seq<Option<F>>) {
    && FifoInv(s.feed, s.maxSize, transform, frames, delivered)
    && (s.exited ==> s.started && s.feed.stopped && !s.captureOpen)
    && (!s.captureOpen ==> s.feed.stopped)
  }

  lemma InitInv<F>(frames: seq<F>, maxSize: int, transform: Transform<F>)
    ensures Inv(Init(frames, maxSize), transform, frames, [])
  {
    FreshFifo(frames, maxSize, transform);
  }

  lemma NextKeepsInv<F>(s: Stream<F>, transform: Transform<F>, frames: seq<F>,
                        delivered: seq<Option<F>>, e: Event)
    requires Inv(s, transform, frames, delivered)
    ensures var (s', item) := Next(s, transform, e);
            Inv(s', transform, frames, if item.Some? then delivered + [item.value] else delivered)
  {
    match e
    case ProducerIteration =>
      if s.started && !s.exited && !s.feed.stopped {
        FillKeepsFifo(s.feed, s.maxSize, transform, frames, delivered);
      }
    case ReadCall =>
      if |s.feed.queue| > 0 {
        TakeKeepsFifo(s.feed, s.maxSize, transform, frames, delivered);
      }
    case StartCall =>
    case StopCall =>
  }

  lemma {:induction false} RunKeepsInv<F>(s: Stream<F>, transform: Transform<F>, frames: seq<F>,
                                          delivered: seq<Option<F>>, events: seq<Event>)
    requires Inv(s, transform, frames, delivered)
    ensures Inv(Run(s, transform, events, delivered).0, transform, frames, Run(s, transform, events, delivered).1)
    decreases |events|
  {
    if |events| > 0 {
      var (s', item) := Next(s, transform, events[0]);
      NextKeepsInv(s, transform, frames, delivered, events[0]);
      RunKeepsInv(s', transform, frames, if item.Some? then delivered + [item.value] else delivered, events[1..]);
    }
  }

  /** Under any interleaving of whole calls and whole producer iterations,
      the consumer receives the source frames (transformed) in source order,
      followed by the transformed sentinel, never more than `maxsize` items
      wait in the queue, and once `running()` is false everything has been
      delivered. */
  lemma DeliveryInSourceOrder<F>(frames: seq<F>, maxSize: int, transform: Transform<F>, events: seq<Event>)
    ensures var (s, delivered) := Run(Init(frames, maxSize), transform, events, []);
            && delivered <= Expected(frames, transform)
            && (maxSize > 0 ==> |s.feed.queue| <= maxSize)
            && (!Running(s) ==> delivered == Expected(frames, transform))
            && (s.exited ==> !s.captureOpen)
  {
    InitInv(frames, maxSize, transform);
    RunKeepsInv(Init(frames, maxSize), transform, frames, [], events);
    var (s, delivered) := Run(Init(frames, maxSize), transform, events, []);
    FifoDelivered(s.feed, s.maxSize, transform, frames, delivered);
  }

  /** A producer iteration followed by a read, `n` times. */
  function Alternate(n: nat): seq<Event> {
    if n == 0 then [] else [ProducerIteration, ReadCall] + Alternate(n - 1)
  }

  lemma {:induction false} AlternateDrainsFrom<F>(s: Stream<F>, transform: Transform<F>, frames: seq<F>,
                                                  delivered: seq<Option<F>>)
    requires Inv(s, transform, frames, delivered)
    requires s.started && !s.exited && !s.feed.stopped && |s.feed.queue| == 0
    ensures var (s', d') := Run(s, transform, Alternate(|s.feed.source| + 1), delivered);
            !Running(s') && d' == Expected(frames, transform)
    decreases |s.feed.source|
  {
    var events := Alternate(|s.feed.source| + 1);
    var p := ProducerStep(s, transform);
    FillKeepsFifo(s.feed, s.maxSize, transform, frames, delivered);
    assert |p.feed.queue| == 1;
    var item := p.feed.queue[0];
    var q := p.(feed := p.feed.(queue := []));
    assert Next(s, transform, ProducerIteration) == (p, None);
    assert Next(p, transform, ReadCall) == (q, Some(item));
    TakeKeepsFifo(p.feed, p.maxSize, transform, frames, delivered);
    assert events[1..][1..] == Alternate(|s.feed.source|);
    assert Run(s, transform, events, delivered) == Run(q, transform, Alternate(|s.feed.source|), delivered + [item]);
    if |s.feed.source| == 0 {
      FifoDelivered(q.feed, q.maxSize, transform, frames, delivered + [item]);
    } else {
      AlternateDrainsFrom(q, transform, frames, delivered + [item]);
    }
  }

  /** For every queue size and every number of frames, a consumer that reads
      after each producer iteration receives exactly the frames, in order,
      and the sentinel, after which the stream is no longer running. */
  lemma AlternatingConsumerReceivesAll<F>(frames: seq<F>, maxSize: int, transform: Transform<F>)
    ensures var (s, delivered) := Run(Init(frames, maxSize), transform, [StartCall] + Alternate(|frames| + 1), []);
            !Running(s) && delivered == Expected(frames, transform)
  {
    var s0 := Init(frames, maxSize);
    var s1 := s0.(started := true);
    InitInv(frames, maxSize, transform);
    assert ([StartCall] + Alternate(|frames| + 1))[1..] == Alternate(|frames| + 1);
    AlternateDrainsFrom(s1, transform, frames, []);
  }

  /** `stop()` joins the producer before it sets the flag, and the producer
      leaves its loop only through that flag or the end of the source. So
      once the queue is full and the source is not exhausted, no sequence
      of calls without a `read()` changes anything, and `stop()` waits
      for ever. */
  lemma {:induction false} FullQueueStopWaits<F>(s: Stream<F>, transform: Transform<F>,
                                                 events: seq<Event>, delivered: seq<Option<F>>)
    requires s.started && !s.exited && !s.feed.stopped && Full(s.feed.queue, s.maxSize)
    requires forall k :: 0 <= k < |events| ==> events[k] != ReadCall
    ensures Run(s, transform, events, delivered) == (s, delivered)
    ensures Stop(Run(s, transform, events, delivered).0) == Blocks
    decreases |events|
  {
    if |events| > 0 {
      assert Next(s, transform, events[0]) == (s, None);
      FullQueueStopWaits(s, transform, events[1..], delivered);
    }
  }
}
