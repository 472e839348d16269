/** `MultiVideoStream`: one polling thread filling one bounded queue per
    source in round-robin order. Each source is a `VideoStream` whose
    `read()` yields its frames and then `None`; a lane records what it will
    still yield, the lane's queue and its entry of `streams_stopped`. */
module MultiVideoStream {
  import opened Results
  import opened BoundedFeed

  datatype Multi<F> = Multi(
    lanes: seq<Lane<F>>,   // per source: remaining frames, `Qs[i]`, `streams_stopped[i]`
    stopped: bool,         // the aggregate `stopped`
    maxSize: int,          // `queue_size`, shared by all queues
    started: bool,
    exited: bool)          // the polling thread has left its loop

  /** The constructor, once every source is open: empty queues, nothing stopped. */
  function Init<F>(sources: seq<seq<F>>, maxSize: int): (m: Multi<F>)
    ensures |m.lanes| == |sources|
    ensures forall i :: 0 <= i < |sources| ==> m.lanes[i] == Fresh(sources[i])
  {
    Multi(seq(|sources|, i requires 0 <= i < |sources| => Fresh(sources[i])), false, maxSize, false, false)
  }

  predicate AllStopped<F>(lanes: seq<Lane<F>>) {
    forall i :: 0 <= i < |lanes| ==> lanes[i].stopped
  }

  /** The aggregate flag agrees with the per-source flags: set exactly when
      there is at least one source and every source is stopped. */
  predicate Agrees<F>(m: Multi<F>) {
    m.stopped <==> |m.lanes| > 0 && AllStopped(m.lanes)
  }

  /** The body of the `for` loop of `update` for index `i`. */
  function Visit<F>(m: Multi<F>, i: nat, transform: Transform<F>): Multi<F>
    requires i < |m.lanes|
  {
    if m.stopped then m                      // `if self.stopped: break`
    else if m.lanes[i].stopped then m        // skip a stopped stream
    else if Full(m.lanes[i].queue, m.maxSize) then m
    else
      var lane := Fill(m.lanes[i], m.maxSize, transform);
      var lanes := m.lanes[i := lane];
      m.(lanes := lanes, stopped := m.stopped || (lane.stopped && AllStopped(lanes)))
  }

  /** Visiting index `i` gives that index its producer step and nothing else. */
  lemma VisitEffect<F>(m: Multi<F>, i: nat, transform: Transform<F>)
    requires i < |m.lanes|
    ensures var next := Visit(m, i, transform);
            && |next.lanes| == |m.lanes|
            && next.maxSize == m.maxSize && next.started == m.started && next.exited == m.exited
            && (m.stopped ==> next.stopped)
            && (forall j :: 0 <= j < |m.lanes| && j != i ==> next.lanes[j] == m.lanes[j])
            && (m.lanes[i].stopped ==> next.lanes[i] == m.lanes[i])
            && (Agrees(m) ==> Agrees(next) && next.lanes[i] == Fill(m.lanes[i], m.maxSize, transform))
  {
    var next := Visit(m, i, transform);
    if Agrees(m) && !m.stopped && !m.lanes[i].stopped && !Full(m.lanes[i].queue, m.maxSize) {
      if !next.lanes[i].stopped {
        assert !AllStopped(next.lanes);
      }
    }
  }

  /** The `for` loop of `update` from index `i` on. Whatever the order of the
      visits, each index receives exactly its own producer step. */
  function VisitFrom<F>(m: Multi<F>, i: nat, transform: Transform<F>): (r: Multi<F>)
    requires i <= |m.lanes|
    ensures |r.lanes| == |m.lanes|
    ensures r.maxSize == m.maxSize && r.started == m.started && r.exited == m.exited
    ensures m.stopped ==> r.stopped
    ensures forall j :: 0 <= j < |m.lanes| && m.lanes[j].stopped ==> r.lanes[j] == m.lanes[j]
    ensures Agrees(m) ==>
              && Agrees(r)
              && (forall j :: 0 <= j < i ==> r.lanes[j] == m.lanes[j])
              && (forall j :: i <= j < |m.lanes| ==> r.lanes[j] == Fill(m.lanes[j], m.maxSize, transform))
    decreases |m.lanes| - i
  {
    if i == |m.lanes| then m
    else
      var next := Visit(m, i, transform);
      VisitEffect(m, i, transform);
      VisitFrom(next, i + 1, transform)
  }

  /** One iteration of the `while` loop of `update`. The sleep when every
      queue is full changes nothing and is left out. */
  function Round<F>(m: Multi<F>, transform: Transform<F>): (r: Multi<F>)
    ensures !m.started || m.exited ==> r == m
    // the aggregate stop ends the loop
    ensures m.started && !m.exited && m.stopped ==> r == m.(exited := true)
    // a live round: each source gets exactly its own producer step, so a
    // stopped source is never read again and a full queue is not read
    ensures m.started && !m.exited && !m.stopped && Agrees(m) ==>
              && |r.lanes| == |m.lanes|
              && (forall j :: 0 <= j < |m.lanes| ==> r.lanes[j] == Fill(m.lanes[j], m.maxSize, transform))
              && !r.exited
    // the aggregate flag is set exactly when the last source stops
    ensures Agrees(m) ==> Agrees(r)
    ensures m.stopped ==> r.stopped
    ensures |r.lanes| == |m.lanes| && r.maxSize == m.maxSize && r.started == m.started
    ensures forall j :: 0 <= j < |m.lanes| && m.lanes[j].stopped ==> r.lanes[j] == m.lanes[j]
  {
    if !m.started || m.exited then m
    else if m.stopped then m.(exited := true)
    else VisitFrom(m, 0, transform)
  }

  /** With no sources the aggregate flag is never set: the polling loop
      spins forever and `running()` stays true. */
  lemma NoSourcesNeverStop<F>(m: Multi<F>, transform: Transform<F>)
    requires |m.lanes| == 0 && Agrees(m) && m.started && !m.exited
    ensures Round(m, transform) == m
    ensures !Round(m, transform).stopped
  {
  }

  function Start<F>(m: Multi<F>): (r: Result<Multi<F>>)
    ensures r.Ok? <==> !m.started
    ensures r.Err? ==> r.error == RuntimeError
    ensures r.Ok? ==> r.value == m.(started := true)
  {
    if m.started then Err(RuntimeError) else Ok(m.(started := true))
  }

  predicate ValidIndex<F>(m: Multi<F>, idx: int) {
    0 <= idx < |m.lanes|
  }

  /** `read(idx)`. */
  function ReadAt<F>(m: Multi<F>, idx: int): (r: Call<(Option<F>, Multi<F>)>)
    // an index outside [0, count) fails the assertion
    ensures !ValidIndex(m, idx) <==> r == Raises(AssertionError)
    // a stopped, drained source answers None (with a warning) and changes nothing
    ensures ValidIndex(m, idx) && m.lanes[idx].stopped && |m.lanes[idx].queue| == 0 ==>
              r == Returns((None, m))
    // a live source with an empty queue waits for the poller
    ensures ValidIndex(m, idx) && !m.lanes[idx].stopped && |m.lanes[idx].queue| == 0 ==> r == Blocks
    // otherwise the front of that queue, and only that queue changes
    ensures ValidIndex(m, idx) && |m.lanes[idx].queue| > 0 ==>
              && r.Returns?
              && r.value.0 == m.lanes[idx].queue[0]
              && r.value.1 == m.(lanes := m.lanes[idx := m.lanes[idx].(queue := m.lanes[idx].queue[1..])])
  {
    if !ValidIndex(m, idx) then Raises(AssertionError)
    else if |m.lanes[idx].queue| == 0 && m.lanes[idx].stopped then Returns((None, m))
    else
      match Take(m.lanes[idx])
      case Returns((item, lane)) => Returns((item, m.(lanes := m.lanes[idx := lane])))
      case _ => Blocks
  }

  /** Some live source has nothing queued, so `read()` waits on it. */
  predicate SomeLiveEmpty<F>(m: Multi<F>) {
    exists j :: 0 <= j < |m.lanes| && !m.lanes[j].stopped && |m.lanes[j].queue| == 0
  }

  /** `read()` without an index. */
  function ReadAll<F>(m: Multi<F>): (r: Call<(Option<seq<Option<F>>>, Multi<F>)>)
    // after the aggregate stop the answer is None, even with frames still buffered
    ensures m.stopped ==> r == Returns((None, m))
    ensures !m.stopped ==> (r == Blocks <==> SomeLiveEmpty(m))
    ensures !m.stopped && r.Returns? ==>
              && r.value.0.Some?
              && |r.value.0.value| == |m.lanes| == |r.value.1.lanes|
              && r.value.1 == m.(lanes := r.value.1.lanes)
              && forall j :: 0 <= j < |m.lanes| ==>
                   if m.lanes[j].stopped then
                     // None for a stopped source, whose queue is not touched
                     r.value.0.value[j] == None && r.value.1.lanes[j] == m.lanes[j]
                   else
                     // one item from the front of every live queue
                     && |m.lanes[j].queue| > 0
                     && r.value.0.value[j] == m.lanes[j].queue[0]
                     && r.value.1.lanes[j] == m.lanes[j].(queue := m.lanes[j].queue[1..])
    ensures r != Raises(AssertionError) && r != Raises(ValueError)
  {
    if m.stopped then Returns((None, m))
    else if SomeLiveEmpty(m) then Blocks
    else
      var n := |m.lanes|;
      var items := seq(n, j requires 0 <= j < n =>
                         if m.lanes[j].stopped then None else m.lanes[j].queue[0]);
      var lanes := seq(n, j requires 0 <= j < n =>
                         if m.lanes[j].stopped then m.lanes[j]
                         else m.lanes[j].(queue := m.lanes[j].queue[1..]));
      Returns((Some(items), m.(lanes := lanes)))
  }

  /** Items waiting over all queues: `sum(q.qsize() for q in self.Qs)`. */
  function TotalQueued<F>(lanes: seq<Lane<F>>): (n: nat)
    ensures n == 0 <==> forall j :: 0 <= j < |lanes| ==> |lanes[j].queue| == 0
    decreases |lanes|
  {
    if |lanes| == 0 then 0
    else |lanes[0].queue| + TotalQueued(lanes[1..])
  }

  /** `more(idx)`, observed when it returns. */
  function MoreAt<F>(m: Multi<F>, idx: int): (r: Result<bool>)
    ensures !ValidIndex(m, idx) <==> r == Err(AssertionError)
    ensures r.Ok? ==> (r.value <==> |m.lanes[idx].queue| > 0)
  {
    if !ValidIndex(m, idx) then Err(AssertionError) else Ok(|m.lanes[idx].queue| > 0)
  }

  /** `more()`, observed when it returns: some queue holds an item. */
  predicate MoreAny<F>(m: Multi<F>) {
    TotalQueued(m.lanes) > 0
  }

  /** `running(idx)`. */
  function RunningAt<F>(m: Multi<F>, idx: int): (r: Result<bool>)
    ensures !ValidIndex(m, idx) <==> r == Err(AssertionError)
    ensures r.Ok? ==> (r.value <==> |m.lanes[idx].queue| > 0 || !m.lanes[idx].stopped)
  {
    match MoreAt(m, idx)
    case Err(e) => Err(e)
    case Ok(more) => Ok(more || !m.lanes[idx].stopped)
  }

  /** `running()`. */
  predicate RunningAny<F>(m: Multi<F>) {
    MoreAny(m) || !m.stopped
  }

  /** `running(idx)` false means `read(idx)` answers None at once and never waits. */
  lemma NotRunningReadsNone<F>(m: Multi<F>, idx: int)
    requires RunningAt(m, idx) == Ok(false)
    ensures ReadAt(m, idx) == Returns((None, m))
  {
  }

  /** `stop()`: join the polling thread, then set the aggregate flag. */
  function Stop<F>(m: Multi<F>): (r: Call<Multi<F>>)
    ensures !m.started <==> r == Raises(RuntimeError)
    ensures m.started && !m.exited <==> r == Blocks
    ensures r.Returns? ==> r.value == m.(stopped := true)
  {
    if !m.started then Raises(RuntimeError)
    else if !m.exited then Blocks
    else Returns(m.(stopped := true))
  }

  datatype Event = StartCall | PollRound | ReadIndex(idx: int) | ReadEvery | StopCall

  /** Per source, appends what a `read` took from its queue. */
  function Record<F>(delivered: seq<seq<Option<F>>>, m: Multi<F>, items: seq<Option<F>>): seq<seq<Option<F>>>
    requires |delivered| == |m.lanes| == |items|
  {
    seq(|delivered|, j requires 0 <= j < |delivered| =>
          if m.lanes[j].stopped then delivered[j] else delivered[j] + [items[j]])
  }

  /** One event; a call that would wait or raise is not taken. `delivered`
      collects, per source, the items consumers took from its queue. */
  function Next<F>(m: Multi<F>, transform: Transform<F>, e: Event, delivered: seq<seq<Option<F>>>)
    : (r: (Multi<F>, seq<seq<Option<F>>>))
    requires |delivered| == |m.lanes|
    ensures |r.0.lanes| == |m.lanes| == |r.1|
    ensures r.0.maxSize == m.maxSize
    // no flag is ever reset
    ensures m.stopped ==> r.0.stopped
    ensures forall j :: 0 <= j < |m.lanes| && m.lanes[j].stopped ==> r.0.lanes[j].stopped
  {
    match e
    case StartCall =>
      (match Start(m) case Ok(m') => (m', delivered) case Err(_) => (m, delivered))
    case PollRound => (Round(m, transform), delivered)
    case ReadIndex(idx) =>
      if ValidIndex(m, idx) && |m.lanes[idx].queue| > 0 then
        var (item, m') := ReadAt(m, idx).value;
        (m', delivered[idx := delivered[idx] + [item]])
      else (m, delivered)
    case ReadEvery =>
      (match ReadAll(m)
       case Returns((Some(items), m')) => (m', Record(delivered, m, items))
       case _ => (m, delivered))
    case StopCall =>
      (match Stop(m) case Returns(m') => (m', delivered) case _ => (m, delivered))
  }

  function Run<F>(m: Multi<F>, transform: Transform<F>, events: seq<Event>, delivered: seq<seq<Option<F>>>)
    : (r: (Multi<F>, seq<seq<Option<F>>>))
    requires |delivered| == |m.lanes|
    ensures |r.0.lanes| == |m.lanes| == |r.1|
    ensures r.0.maxSize == m.maxSize
    decreases |events|
  {
    if |events| == 0 then (m, delivered)
    else
      var (m', d') := Next(m, transform, events[0], delivered);
      Run(m', transform, events[1..], d')
  }

  /** The invariant of reachable states: every source keeps its own FIFO
      invariant, and the flags and the thread agree. */
  ghost predicate Inv<F>(m: Multi<F>, transform: Transform<F>, frames: seq<seq<F>>, delivered: seq<seq<Option<F>>>) {
    && |frames| == |delivered| == |m.lanes|
    && (forall j :: 0 <= j < |m.lanes| ==> FifoInv(m.lanes[j], m.maxSize, transform, frames[j], delivered[j]))
    && Agrees(m)
    && (m.exited ==> m.started && m.stopped)
  }

  lemma InitInv<F>(sources: seq<seq<F>>, maxSize: int, transform: Transform<F>)
    ensures Inv(Init(sources, maxSize), transform, sources, seq(|sources|, j => []))
  {
    var m := Init(sources, maxSize);
    forall j | 0 <= j < |sources|
      ensures FifoInv(m.lanes[j], maxSize, transform, sources[j], [])
    {
      FreshFifo(sources[j], maxSize, transform);
    }
    if |sources| > 0 {
      assert !m.lanes[0].stopped;
    }
  }

  lemma RoundKeepsInv<F>(m: Multi<F>, transform: Transform<F>, frames: seq<seq<F>>, delivered: seq<seq<Option<F>>>)
    requires Inv(m, transform, frames, delivered)
    ensures Inv(Round(m, transform), transform, frames, delivered)
  {
    var r := Round(m, transform);
    if m.started && !m.exited && !m.stopped {
      forall j | 0 <= j < |m.lanes|
        ensures FifoInv(r.lanes[j], r.maxSize, transform, frames[j], delivered[j])
      {
        FillKeepsFifo(m.lanes[j], m.maxSize, transform, frames[j], delivered[j]);
      }
    }
  }

  /** Replacing one source's lane and record by ones that keep its FIFO
      invariant and its flag keeps the invariant. */
  lemma ReplaceLaneKeepsInv<F>(m: Multi<F>, idx: nat, lane: Lane<F>, record: seq<Option<F>>, transform: Transform<F>,
                               frames: seq<seq<F>>, delivered: seq<seq<Option<F>>>)
    requires Inv(m, transform, frames, delivered)
    requires idx < |m.lanes| && lane.stopped == m.lanes[idx].stopped
    requires FifoInv(lane, m.maxSize, transform, frames[idx], record)
    ensures Inv(m.(lanes := m.lanes[idx := lane]), transform, frames, delivered[idx := record])
  {
    var m' := m.(lanes := m.lanes[idx := lane]);
    var d' := delivered[idx := record];
    forall j | 0 <= j < |m.lanes|
      ensures FifoInv(m'.lanes[j], m.maxSize, transform, frames[j], d'[j])
    {
      if j != idx {
        assert m'.lanes[j] == m.lanes[j] && d'[j] == delivered[j];
      }
    }
    SameFlagsAgree(m, m');
  }

  /** The aggregate flag still agrees when no per-source flag changed. */
  lemma SameFlagsAgree<F>(m: Multi<F>, m': Multi<F>)
    requires Agrees(m) && m'.stopped == m.stopped && |m'.lanes| == |m.lanes|
    requires forall j :: 0 <= j < |m.lanes| ==> m'.lanes[j].stopped == m.lanes[j].stopped
    ensures Agrees(m')
  {
    if !m.stopped && |m.lanes| > 0 {
      var j :| 0 <= j < |m.lanes| && !m.lanes[j].stopped;
      assert !m'.lanes[j].stopped;
    }
  }

  lemma ReadAtKeepsInv<F>(m: Multi<F>, idx: int, transform: Transform<F>,
                          frames: seq<seq<F>>, delivered: seq<seq<Option<F>>>)
    requires Inv(m, transform, frames, delivered)
    requires ValidIndex(m, idx) && |m.lanes[idx].queue| > 0
    ensures var (item, m') := ReadAt(m, idx).value;
            Inv(m', transform, frames, delivered[idx := delivered[idx] + [item]])
  {
    var lane := m.lanes[idx];
    TakeKeepsFifo(lane, m.maxSize, transform, frames[idx], delivered[idx]);
    ReplaceLaneKeepsInv(m, idx, lane.(queue := lane.queue[1..]), delivered[idx] + [lane.queue[0]],
                        transform, frames, delivered);
  }

  lemma ReadAllKeepsInv<F>(m: Multi<F>, transform: Transform<F>, frames: seq<seq<F>>, delivered: seq<seq<Option<F>>>)
    requires Inv(m, transform, frames, delivered)
    requires ReadAll(m).Returns? && ReadAll(m).value.0.Some?
    ensures var (items, m') := ReadAll(m).value;
            Inv(m', transform, frames, Record(delivered, m, items.value))
  {
    var (items, m') := ReadAll(m).value;
    var d' := Record(delivered, m, items.value);
    forall j | 0 <= j < |m.lanes|
      ensures FifoInv(m'.lanes[j], m.maxSize, transform, frames[j], d'[j])
    {
      if !m.lanes[j].stopped {
        TakeKeepsFifo(m.lanes[j], m.maxSize, transform, frames[j], delivered[j]);
      }
    }
    assert forall j :: 0 <= j < |m.lanes| ==> m'.lanes[j].stopped == m.lanes[j].stopped;
    SameFlagsAgree(m, m');
  }

  lemma NextKeepsInv<F>(m: Multi<F>, transform: Transform<F>, e: Event, frames: seq<seq<F>>, delivered: seq<seq<Option<F>>>)
    requires Inv(m, transform, frames, delivered)
    ensures Inv(Next(m, transform, e, delivered).0, transform, frames, Next(m, transform, e, delivered).1)
  {
    match e
    case PollRound => RoundKeepsInv(m, transform, frames, delivered);
    case ReadIndex(idx) =>
      if ValidIndex(m, idx) && |m.lanes[idx].queue| > 0 {
        ReadAtKeepsInv(m, idx, transform, frames, delivered);
      }
    case ReadEvery =>
      if ReadAll(m).Returns? && ReadAll(m).value.0.Some? {
        ReadAllKeepsInv(m, transform, frames, delivered);
      }
    case StartCall =>
    case StopCall =>
  }

  lemma {:induction false} RunKeepsInv<F>(m: Multi<F>, transform: Transform<F>, events: seq<Event>,
                                          frames: seq<seq<F>>, delivered: seq<seq<Option<F>>>)
    requires Inv(m, transform, frames, delivered)
    ensures Inv(Run(m, transform, events, delivered).0, transform, frames, Run(m, transform, events, delivered).1)
    decreases |events|
  {
    if |events| > 0 {
      NextKeepsInv(m, transform, events[0], frames, delivered);
      var (m', d') := Next(m, transform, events[0], delivered);
      RunKeepsInv(m', transform, events[1..], frames, d');
    }
  }

  /** Per source, under any interleaving of whole calls and whole loop
      iterations: consumers receive that source's frames in order followed
      by its sentinel, its queue stays within `queue_size`, and once
      `running(idx)` is false it has all been received. */
  lemma PerSourceDelivery<F>(sources: seq<seq<F>>, maxSize: int, transform: Transform<F>, events: seq<Event>)
    ensures var (m, delivered) := Run(Init(sources, maxSize), transform, events, seq(|sources|, j => []));
            && Agrees(m)
            && forall j :: 0 <= j < |sources| ==>
                 && delivered[j] <= Expected(sources[j], transform)
                 && (maxSize > 0 ==> |m.lanes[j].queue| <= maxSize)
                 && (RunningAt(m, j) == Ok(false) ==> delivered[j] == Expected(sources[j], transform))
  {
    var d0: seq<seq<Option<F>>> := seq(|sources|, j => []);
    InitInv(sources, maxSize, transform);
    RunKeepsInv(Init(sources, maxSize), transform, events, sources, d0);
    var (m, delivered) := Run(Init(sources, maxSize), transform, events, d0);
    forall j | 0 <= j < |sources|
      ensures delivered[j] <= Expected(sources[j], transform)
      ensures RunningAt(m, j) == Ok(false) ==> delivered[j] == Expected(sources[j], transform)
    {
      FifoDelivered(m.lanes[j], m.maxSize, transform, sources[j], delivered[j]);
    }
  }

  /** Stopped sources still hold their queued sentinel. */
  predicate SentinelsQueued<F>(m: Multi<F>) {
    forall j :: 0 <= j < |m.lanes| && m.lanes[j].stopped ==> |m.lanes[j].queue| > 0
  }

  /** A consumer that only polls and uses `read()` never takes a stopped
      source's queued items, so once any source has stopped `running()`
      stays true for good. */
  lemma {:induction false} AggregateReadKeepsRunning<F>(m: Multi<F>, transform: Transform<F>, events: seq<Event>,
                                                        delivered: seq<seq<Option<F>>>)
    requires |delivered| == |m.lanes| && Agrees(m)
    requires SentinelsQueued(m)
    requires forall k :: 0 <= k < |events| ==> events[k] != StopCall && !events[k].ReadIndex?
    ensures SentinelsQueued(Run(m, transform, events, delivered).0)
    ensures (exists j :: 0 <= j < |m.lanes| && m.lanes[j].stopped) ==>
              RunningAny(Run(m, transform, events, delivered).0)
    decreases |events|
  {
    if |events| > 0 {
      var (m', d') := Next(m, transform, events[0], delivered);
      assert SentinelsQueued(m') && Agrees(m') by {
        if events[0] == PollRound && m.started && !m.exited && !m.stopped {
          forall j | 0 <= j < |m.lanes| && m'.lanes[j].stopped
            ensures |m'.lanes[j].queue| > 0
          {
            assert m'.lanes[j] == Fill(m.lanes[j], m.maxSize, transform);
          }
        }
      }
      AggregateReadKeepsRunning(m', transform, events[1..], d');
      if exists j :: 0 <= j < |m.lanes| && m.lanes[j].stopped {
        var j :| 0 <= j < |m.lanes| && m.lanes[j].stopped;
        assert m'.lanes[j].stopped;
      }
    } else {
      if exists j :: 0 <= j < |m.lanes| && m.lanes[j].stopped {
        var j :| 0 <= j < |m.lanes| && m.lanes[j].stopped;
        assert |m.lanes[j].queue| > 0;
      }
    }
  }

  /** A live round in which every source is stopped or has a full queue
      changes nothing. */
  lemma FullRoundIdle<F>(m: Multi<F>, transform: Transform<F>)
    requires Agrees(m) && m.started && !m.exited && !m.stopped
    requires forall j :: 0 <= j < |m.lanes| ==> m.lanes[j].stopped || Full(m.lanes[j].queue, m.maxSize)
    ensures Round(m, transform) == m
  {
    var r := Round(m, transform);
    assert r.lanes == m.lanes by {
      forall j | 0 <= j < |m.lanes|
        ensures r.lanes[j] == m.lanes[j]
      {
        assert r.lanes[j] == Fill(m.lanes[j], m.maxSize, transform);
      }
    }
    assert r.stopped == m.stopped;
  }

  /** As for a single stream, `stop()` joins before it sets the flag: once
      every live source has a full queue, no sequence of calls without a
      `read` changes anything, and `stop()` waits for ever. */
  lemma {:induction false} FullQueuesStopWaits<F>(m: Multi<F>, transform: Transform<F>,
                                                  events: seq<Event>, delivered: seq<seq<Option<F>>>)
    requires |delivered| == |m.lanes|
    requires Agrees(m) && m.started && !m.exited && !m.stopped
    requires forall j :: 0 <= j < |m.lanes| ==> m.lanes[j].stopped || Full(m.lanes[j].queue, m.maxSize)
    requires forall k :: 0 <= k < |events| ==> events[k] == StartCall || events[k] == PollRound || events[k] == StopCall
    ensures Run(m, transform, events, delivered) == (m, delivered)
    ensures Stop(Run(m, transform, events, delivered).0) == Blocks
    decreases |events|
  {
    if |events| > 0 {
      FullRoundIdle(m, transform);
      assert Next(m, transform, events[0], delivered) == (m, delivered);
      FullQueuesStopWaits(m, transform, events[1..], delivered);
    }
  }
}
