/** VideoCameraFrameProcessor: the FrameArrived handler replaces the
    latest-frame slot, and the processing loop forwards the slot's frame with
    its absolute timestamp when the signed timestamp filter accepts it. As for
    the depth processor, each handler call and each loop pass is one atomic
    step under the frame mutex. The TimeConverter is the function
    `toAbsolute`, mapping a SystemRelativeTime to absolute ticks. */
module VideoProcessing {
  import opened Frames

  /** FrameProcesingThread's test: a timestamp different from the last sent
      one whose signed difference from it exceeds minDelta. */
  predicate Accepts(latestTimestamp: int, minDelta: int, timestamp: int)
  {
    timestamp != latestTimestamp && timestamp - latestTimestamp > minDelta
  }

  /** With a non-negative minDelta the filter accepts exactly the timestamps
      more than minDelta after the last sent one, so it never forwards an
      older or equal timestamp (unlike the depth processor's unsigned
      filter, see ResearchModeProcessing.AcceptsBackward). */
  lemma AcceptsOnlyLater(latestTimestamp: int, minDelta: int, timestamp: int)
    requires minDelta >= 0
    ensures Accepts(latestTimestamp, minDelta, timestamp) <==> timestamp > latestTimestamp + minDelta
  {
  }

  datatype ProcessorState = ProcessorState(
    latestFrame: Option<VideoFrame>,    // m_latestFrame, the latest-frame slot
    latestTimestamp: int,               // m_latestTimestamp
    exit: bool,                         // m_fExit
    isRunning: bool,
    processing: bool,                   // the processing thread is spawned and not joined
    registered: bool,                   // the FrameArrived handler is registered
    sent: seq<(VideoFrame, int)>)       // (frame, timestamp) pairs handed to m_pFrameSink->Send

  /** The state after InitializeAsync: nothing started, nothing sent. */
  function InitialState(): (s: ProcessorState)
    ensures s.latestFrame.None? && s.latestTimestamp == 0 && s.sent == [] && !s.registered
  {
    ProcessorState(None, 0, false, false, false, false, [])
  }

  /** StartAsync move-assigns a new thread into m_processThread once the
      reader has started. If the thread of an earlier StartAsync is still
      joinable (not joined by Stop), that assignment calls std::terminate and
      the process ends there. A failed start throws before reaching it. */
  predicate StartTerminates(s: ProcessorState, readerStarted: bool)
  {
    readerStarted && s.processing
  }

  /** StartAsync: clear the exit flag and start the reader; only when the
      reader reports Success are the processing thread spawned, the handler
      registered and isRunning set (otherwise check_bool throws). */
  function StartStep(s: ProcessorState, readerStarted: bool): (t: ProcessorState)
    requires !StartTerminates(s, readerStarted)
    ensures !t.exit
    ensures t.processing == (readerStarted || s.processing) && t.registered == (readerStarted || s.registered)
    ensures t.isRunning == (readerStarted || s.isRunning)
    ensures t.latestFrame == s.latestFrame && t.latestTimestamp == s.latestTimestamp && t.sent == s.sent
  {
    if readerStarted then s.(exit := false, processing := true, registered := true, isRunning := true)
    else s.(exit := false)
  }

  /** Stop: set the exit flag, join the processing thread, revoke the
      handler, empty the slot, clear isRunning. m_latestTimestamp is kept. */
  function StopStep(s: ProcessorState): (t: ProcessorState)
    ensures t.exit && !t.processing && !t.registered && !t.isRunning && t.latestFrame.None?
    ensures t.latestTimestamp == s.latestTimestamp && t.sent == s.sent
  {
    s.(exit := true, processing := false, registered := false, latestFrame := None, isRunning := false)
  }

  /** OnFrameArrived: a frame from TryAcquireLatestFrame replaces the slot;
      a null result leaves it. */
  function FrameArrivedStep(s: ProcessorState, acquired: Option<VideoFrame>): (t: ProcessorState)
    ensures t.latestFrame == (if s.registered && acquired.Some? then acquired else s.latestFrame)
    ensures t.latestTimestamp == s.latestTimestamp && t.sent == s.sent
  {
    if s.registered && acquired.Some? then s.(latestFrame := acquired) else s
  }

  /** One pass of `while (!m_fExit)`: the slot's frame is converted to an
      absolute timestamp and sent when the filter accepts it. */
  function ProcessStep(s: ProcessorState, toAbsolute: int -> int, minDelta: int): (t: ProcessorState)
    ensures var fires := s.processing && !s.exit && s.latestFrame.Some?
                         && Accepts(s.latestTimestamp, minDelta, toAbsolute(s.latestFrame.value.systemRelativeTime));
      var ts := if s.latestFrame.Some? then toAbsolute(s.latestFrame.value.systemRelativeTime) else 0;
      && t.sent == (if fires then s.sent + [(s.latestFrame.value, ts)] else s.sent)
      && t.latestTimestamp == (if fires then ts else s.latestTimestamp)
      && t.latestFrame == s.latestFrame
  {
    if s.processing && !s.exit && s.latestFrame.Some? then
      var frame := s.latestFrame.value;
      var timestamp := toAbsolute(frame.systemRelativeTime);
      if Accepts(s.latestTimestamp, minDelta, timestamp)
      then s.(latestTimestamp := timestamp, sent := s.sent + [(frame, timestamp)])
      else s
    else s
  }

  /** Without a new frame in between, a second pass sends nothing. */
  lemma ProcessStepIdempotent(s: ProcessorState, toAbsolute: int -> int, minDelta: int)
    ensures ProcessStep(ProcessStep(s, toAbsolute, minDelta), toAbsolute, minDelta) == ProcessStep(s, toAbsolute, minDelta)
  {
  }

  datatype Event =
    | StartAsync(readerStarted: bool)
    | Stop
    | FrameArrived(acquired: Option<VideoFrame>)
    | Process

  /** The event cannot happen in the state without ending the process. */
  predicate Terminates(s: ProcessorState, e: Event)
  {
    e.StartAsync? && StartTerminates(s, e.readerStarted)
  }

  function Apply(s: ProcessorState, toAbsolute: int -> int, minDelta: int, e: Event): ProcessorState
    requires !Terminates(s, e)
  {
    match e
    case StartAsync(ok) => StartStep(s, ok)
    case Stop => StopStep(s)
    case FrameArrived(acquired) => FrameArrivedStep(s, acquired)
    case Process => ProcessStep(s, toAbsolute, minDelta)
  }

  /** The state after the events. A StartAsync that terminates the process
      ends the run with the state, and the frames sent, it had reached. */
  function Run(s: ProcessorState, toAbsolute: int -> int, minDelta: int, events: seq<Event>): ProcessorState
    decreases |events|
  {
    if events == [] then s
    else if Terminates(s, events[0]) then s
    else Run(Apply(s, toAbsolute, minDelta, events[0]), toAbsolute, minDelta, events[1..])
  }

  /** A second successful StartAsync without a Stop in between ends the run:
      nothing after it is sent. */
  lemma DoubleStartEndsRun(s: ProcessorState, toAbsolute: int -> int, minDelta: int, events: seq<Event>)
    requires !s.processing
    ensures Run(s, toAbsolute, minDelta, [StartAsync(true), StartAsync(true)] + events) == StartStep(s, true)
  {
    assert ([StartAsync(true), StartAsync(true)] + events)[1..] == [StartAsync(true)] + events;
  }

  /** Sent timestamps strictly increase, consecutive ones more than minDelta apart. */
  ghost predicate SentSpaced(sent: seq<(VideoFrame, int)>, minDelta: int)
  {
    forall i :: 0 < i < |sent| ==> sent[i].1 - sent[i - 1].1 > minDelta
  }

  ghost predicate Inv(s: ProcessorState, minDelta: int)
  {
    && SentSpaced(s.sent, minDelta)
    && (s.sent == [] ==> s.latestTimestamp == 0)
    && (s.sent != [] ==> s.sent[|s.sent| - 1].1 == s.latestTimestamp && s.sent[0].1 > minDelta)
  }

  lemma ProcessStepKeepsInv(s: ProcessorState, toAbsolute: int -> int, minDelta: int)
    requires Inv(s, minDelta)
    ensures Inv(ProcessStep(s, toAbsolute, minDelta), minDelta)
  {
    var t := ProcessStep(s, toAbsolute, minDelta);
    if t.sent != s.sent {
      var p := (s.latestFrame.value, toAbsolute(s.latestFrame.value.systemRelativeTime));
      assert t.sent == s.sent + [p];
      forall i | 0 < i < |t.sent|
        ensures t.sent[i].1 - t.sent[i - 1].1 > minDelta
      {
        if i < |s.sent| {
          assert t.sent[i - 1] == s.sent[i - 1] && t.sent[i] == s.sent[i];
        }
      }
    }
  }

  lemma {:induction false} RunKeepsInv(s: ProcessorState, toAbsolute: int -> int, minDelta: int, events: seq<Event>)
    requires Inv(s, minDelta)
    ensures Inv(Run(s, toAbsolute, minDelta, events), minDelta)
    decreases |events|
  {
    if events != [] && !Terminates(s, events[0]) {
      var t := Apply(s, toAbsolute, minDelta, events[0]);
      if events[0].Process? {
        ProcessStepKeepsInv(s, toAbsolute, minDelta);
      }
      assert Inv(t, minDelta);
      RunKeepsInv(t, toAbsolute, minDelta, events[1..]);
    }
  }

  /** Whatever the order of frame arrivals, passes, starts and stops, and
      whatever timestamps the converter produces, each sent timestamp is more
      than minDelta after the previous one (the first more than minDelta
      after 0); with minDelta >= 0 they strictly increase, so an older frame
      is never forwarded. */
  lemma SentTimestampsIncrease(toAbsolute: int -> int, minDelta: int, events: seq<Event>)
    ensures var sent := Run(InitialState(), toAbsolute, minDelta, events).sent;
      && (forall i :: 0 < i < |sent| ==> sent[i].1 - sent[i - 1].1 > minDelta)
      && (sent != [] ==> sent[0].1 > minDelta)
      && (minDelta >= 0 ==> forall i, j :: 0 <= i < j < |sent| ==> sent[i].1 < sent[j].1)
  {
    RunKeepsInv(InitialState(), toAbsolute, minDelta, events);
    var sent := Run(InitialState(), toAbsolute, minDelta, events).sent;
    if minDelta >= 0 {
      forall i, j | 0 <= i < j < |sent| ensures sent[i].1 < sent[j].1 {
        StrictlyIncreasingSteps(sent, i, j);
      }
    }
  }

  lemma {:induction false} StrictlyIncreasingSteps(sent: seq<(VideoFrame, int)>, i: nat, j: nat)
    requires forall k :: 0 < k < |sent| ==> sent[k - 1].1 < sent[k].1
    requires i < j < |sent|
    ensures sent[i].1 < sent[j].1
    decreases j - i
  {
    if i + 1 < j {
      StrictlyIncreasingSteps(sent, i, j - 1);
    }
  }

  // ----- The processor object ------------------------------------------------

  class VideoCameraFrameProcessor {
    const toAbsolute: int -> int
    const minDelta: int
    var latestFrame: Option<VideoFrame>
    var latestTimestamp: int
    var exit: bool
    var isRunning: bool
    var processing: bool
    var registered: bool
    /** The (frame, timestamp) pairs handed to the sink, oldest first. */
    ghost var sent: seq<(VideoFrame, int)>

    ghost function State(): ProcessorState
      reads this
    {
      ProcessorState(latestFrame, latestTimestamp, exit, isRunning, processing, registered, sent)
    }

    /** The processor once InitializeAsync has stored the sink and minDelta
        and created the frame reader. */
    constructor (toAbsolute: int -> int, minDelta: int)
      ensures State() == InitialState() && this.toAbsolute == toAbsolute && this.minDelta == minDelta
    {
      this.toAbsolute := toAbsolute;
      this.minDelta := minDelta;
      latestFrame := None;
      latestTimestamp := 0;
      exit := false;
      isRunning := false;
      processing := false;
      registered := false;
      sent := [];
    }

    /** StartAsync; readerStarted says whether the reader's start status was
        Success. A start that would terminate the process is not modelled. */
    method StartAsync(readerStarted: bool)
      requires !(readerStarted && processing)
      modifies this
      ensures State() == StartStep(old(State()), readerStarted)
    {
      exit := false;
      if !readerStarted {
        return;
      }
      processing := true;
      registered := true;
      isRunning := true;
    }

    method Stop()
      modifies this
      ensures State() == StopStep(old(State()))
    {
      exit := true;
      processing := false;
      registered := false;
      latestFrame := None;
      isRunning := false;
    }

    /** acquired is what TryAcquireLatestFrame returned (None for null). */
    method OnFrameArrived(acquired: Option<VideoFrame>)
      requires registered
      modifies this
      ensures State() == FrameArrivedStep(old(State()), acquired)
    {
      if acquired.Some? {
        latestFrame := acquired;
      }
    }

    /** One pass of the processing loop. */
    method ProcessingStep()
      requires processing
      modifies this
      ensures State() == ProcessStep(old(State()), toAbsolute, minDelta)
    {
      if exit {
        return;
      }
      if latestFrame.Some? {
        var frame := latestFrame.value;
        var timestamp := toAbsolute(frame.systemRelativeTime);
        if timestamp != latestTimestamp {
          var delta := timestamp - latestTimestamp;
          if delta > minDelta {
            latestTimestamp := timestamp;
            sent := sent + [(frame, timestamp)];
          }
        }
      }
    }
  }
}
