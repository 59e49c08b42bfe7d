/** ResearchModeFrameProcessor: the depth pipeline's acquisition loop fills a
    single latest-frame slot, and the processing loop forwards the slot's
    frame to the sink when the timestamp filter accepts it. Each loop body is
    one atomic step; the mutex that serialises the two bodies is what makes
    that reading sound, and threads themselves are not modelled. */
module ResearchModeProcessing {
  import opened WireBytes
  import opened Frames

  // ----- Consent ------------------------------------------------------------

  /** What WaitForSingleObject on the consent event returned. */
  datatype WaitResult = WaitObject0 | WaitOther(code: int)

  /** ResearchModeSensorConsent, with room for a value outside the named ones. */
  datatype SensorConsent =
    | DeniedBySystem | Allowed | DeniedByUser | NotDeclaredByApp | UserPromptRequired
    | UnnamedConsent(code: int)

  datatype HResult = SOk | EAccessDenied | EUnexpected

  /** The consent switch at the top of CameraUpdateThread. */
  function ConsentResult(waitResult: WaitResult, consent: SensorConsent): (hr: HResult)
    ensures hr == SOk <==> waitResult == WaitObject0 && consent == Allowed
    ensures hr == EUnexpected <==> waitResult != WaitObject0
    ensures hr == EAccessDenied <==> waitResult == WaitObject0 && consent != Allowed
  {
    if waitResult == WaitObject0 then
      match consent
      case Allowed => SOk
      case DeniedBySystem => EAccessDenied
      case DeniedByUser => EAccessDenied
      case NotDeclaredByApp => EAccessDenied
      case UserPromptRequired => EAccessDenied
      case UnnamedConsent(_) => EAccessDenied
    else EUnexpected
  }

  // ----- Timestamp filter ---------------------------------------------------

  /** IsValidTimestamp's decision for a non-null frame: reject a HostTicks
      equal to the previous one, else compute the UINT64 difference (which
      wraps modulo 2^64) and accept when it is at least minDelta. m_minDelta
      is a long long compared with an unsigned delta, so the comparison is
      unsigned and minDelta is a uint64 here. */
  predicate Accepts(prevTimestamp: uint64, minDelta: uint64, hostTicks: uint64)
  {
    hostTicks != prevTimestamp && (hostTicks - prevTimestamp) % TWO_64 >= minDelta
  }

  /** Without wrap-around the filter is the plain gap test. */
  lemma AcceptsForward(prevTimestamp: uint64, minDelta: uint64, hostTicks: uint64)
    requires prevTimestamp <= hostTicks
    ensures Accepts(prevTimestamp, minDelta, hostTicks)
            <==> prevTimestamp < hostTicks && hostTicks - prevTimestamp >= minDelta
  {
  }

  /** An older timestamp is not rejected for being older: its wrapped
      difference is huge, so it passes unless minDelta exceeds it. */
  lemma AcceptsBackward(prevTimestamp: uint64, minDelta: uint64, hostTicks: uint64)
    requires hostTicks < prevTimestamp
    ensures Accepts(prevTimestamp, minDelta, hostTicks) <==> TWO_64 - (prevTimestamp - hostTicks) >= minDelta
  {
  }

  /** With minDelta = 0 (the value the plugin configures) every timestamp
      other than the previous accepted one is accepted. */
  lemma AcceptsWithZeroMinDelta(prevTimestamp: uint64, hostTicks: uint64)
    ensures Accepts(prevTimestamp, 0, hostTicks) <==> hostTicks != prevTimestamp
  {
  }

  // ----- Processor state and loop bodies --------------------------------------

  /** Where the acquisition thread is: not yet spawned, blocked on the consent
      event, inside the frame loop, or ended. */
  datatype AcquisitionPhase = NotStarted | AwaitingConsent | Acquiring | Finished

  datatype ProcessorState = ProcessorState(
    sensorFrame: Option<SensorFrame>,   // m_pSensorFrame, the latest-frame slot
    prevTimestamp: uint64,              // m_prevTimestamp
    exit: bool,                         // m_fExit
    isRunning: bool,
    hasSensor: bool,                    // m_pRMSensor != nullptr
    hasSink: bool,                      // m_pFrameSink != nullptr
    phase: AcquisitionPhase,
    processing: bool,                   // the processing thread is spawned and not joined
    sent: seq<SensorFrame>)             // frames handed to m_pFrameSink->Send, oldest first

  /** The state the constructor leaves (initial values from the header). */
  function InitialState(hasSink: bool): (s: ProcessorState)
    ensures s.sensorFrame.None? && s.prevTimestamp == 0 && s.sent == []
  {
    ProcessorState(None, 0, false, false, true, hasSink, NotStarted, false, [])
  }

  /** Start move-assigns new threads into m_cameraUpdateThread and
      m_processThread. Assigning to a thread object that is still joinable
      (spawned by an earlier Start and not joined by Stop) calls
      std::terminate, so the process ends there. */
  predicate StartTerminates(s: ProcessorState)
  {
    s.processing
  }

  /** Start: clear the exit flag, spawn both threads, set isRunning. */
  function StartStep(s: ProcessorState): (t: ProcessorState)
    requires !StartTerminates(s)
    ensures t.exit == false && t.isRunning && t.processing && t.phase == AwaitingConsent
    ensures t.sensorFrame == s.sensorFrame && t.prevTimestamp == s.prevTimestamp && t.sent == s.sent
  {
    s.(exit := false, phase := AwaitingConsent, processing := true, isRunning := true)
  }

  /** Stop: set the exit flag, join both threads, close the stream, clear
      isRunning. The slot keeps its frame. */
  function StopStep(s: ProcessorState): (t: ProcessorState)
    ensures t.exit && !t.isRunning && !t.processing && t.phase != Acquiring
    ensures t.sensorFrame == s.sensorFrame && t.prevTimestamp == s.prevTimestamp && t.sent == s.sent
  {
    s.(exit := true,
       phase := if s.phase == NotStarted then NotStarted else Finished,
       processing := false,
       isRunning := false)
  }

  /** The acquisition thread leaves its consent wait: on consent it opens the
      stream; when OpenStream fails the sensor is released and nulled, so
      the frame loop never runs. */
  /** After consent the thread calls m_pRMSensor->OpenStream(). A failed
      OpenStream of an earlier run left m_pRMSensor null, so a restarted
      thread that gets consent dereferences a null pointer, an access
      violation that ends the process. */
  predicate ConsentDereferencesNull(s: ProcessorState, waitResult: WaitResult, consent: SensorConsent)
  {
    s.phase == AwaitingConsent && ConsentResult(waitResult, consent) == SOk && !s.hasSensor
  }

  function ConsentStep(s: ProcessorState, waitResult: WaitResult, consent: SensorConsent,
                       openStreamSucceeded: bool): (t: ProcessorState)
    requires !ConsentDereferencesNull(s, waitResult, consent)
    ensures s.phase == AwaitingConsent ==>
      (t.phase == Acquiring <==> ConsentResult(waitResult, consent) == SOk && openStreamSucceeded)
    ensures s.phase == AwaitingConsent ==> (t.hasSensor <==> s.hasSensor && (openStreamSucceeded || ConsentResult(waitResult, consent) != SOk))
    ensures s.phase != AwaitingConsent ==> t == s
    ensures t.sensorFrame == s.sensorFrame && t.prevTimestamp == s.prevTimestamp && t.sent == s.sent
  {
    if s.phase != AwaitingConsent then s
    else if ConsentResult(waitResult, consent) != SOk then s.(phase := Finished)
    else if !openStreamSucceeded then s.(hasSensor := false, phase := Finished)
    else s.(phase := Acquiring)
  }

  /** One pass of the frame loop `while (!m_fExit && m_pRMSensor)`:
      GetNextBuffer either yields a frame, which replaces the slot, or
      fails, which leaves the slot as it was. When the loop condition is
      false the thread closes the stream and ends. */
  function AcquireStep(s: ProcessorState, nextBuffer: Option<SensorFrame>): (t: ProcessorState)
    ensures t.sensorFrame == (if s.phase == Acquiring && !s.exit && s.hasSensor && nextBuffer.Some?
                              then nextBuffer else s.sensorFrame)
    ensures t.prevTimestamp == s.prevTimestamp && t.sent == s.sent
  {
    if s.phase != Acquiring then s
    else if s.exit || !s.hasSensor then s.(phase := Finished)
    else if nextBuffer.Some? then s.(sensorFrame := nextBuffer)
    else s
  }

  /** A processing pass forwards the slot's frame: the loop runs, a sink is
      set, the slot holds a frame and IsValidTimestamp accepts it. */
  predicate ProcessSends(s: ProcessorState, minDelta: uint64)
  {
    s.processing && !s.exit && s.hasSink && s.sensorFrame.Some?
    && Accepts(s.prevTimestamp, minDelta, s.sensorFrame.value.hostTicks)
  }

  /** The Send of an accepted frame passes m_pRMSensor->GetSensorType(). The
      slot survives Stop, so after a restart whose OpenStream failed the slot
      can still hold an older run's frame while m_pRMSensor is null: the call
      is an access violation that ends the process. */
  predicate ProcessDereferencesNull(s: ProcessorState, minDelta: uint64)
  {
    ProcessSends(s, minDelta) && !s.hasSensor
  }

  /** One pass of the processing loop `while (!m_fExit && m_pFrameSink)`:
      under the slot mutex, a present frame that IsValidTimestamp accepts is
      sent, and its HostTicks becomes m_prevTimestamp. */
  function ProcessStep(s: ProcessorState, minDelta: uint64): (t: ProcessorState)
    requires !ProcessDereferencesNull(s, minDelta)
    ensures var fires := s.processing && !s.exit && s.hasSink && s.sensorFrame.Some?
                         && Accepts(s.prevTimestamp, minDelta, s.sensorFrame.value.hostTicks);
      && t.sent == (if fires then s.sent + [s.sensorFrame.value] else s.sent)
      && t.prevTimestamp == (if fires then s.sensorFrame.value.hostTicks else s.prevTimestamp)
      && t.sensorFrame == s.sensorFrame
  {
    if s.processing && !s.exit && s.hasSink && s.sensorFrame.Some?
       && Accepts(s.prevTimestamp, minDelta, s.sensorFrame.value.hostTicks)
    then s.(prevTimestamp := s.sensorFrame.value.hostTicks, sent := s.sent + [s.sensorFrame.value])
    else s
  }

  /** Without a new frame in between, a second processing pass sends
      nothing: a frame is never forwarded twice. */
  lemma ProcessStepIdempotent(s: ProcessorState, minDelta: uint64)
    requires !ProcessDereferencesNull(s, minDelta)
    ensures ProcessStep(ProcessStep(s, minDelta), minDelta) == ProcessStep(s, minDelta)
  {
  }

  /** With minDelta = 0, a running processor forwards the slot's frame
      whenever its HostTicks differs from the last accepted one. */
  lemma ZeroMinDeltaForwardsEveryNewTimestamp(s: ProcessorState)
    requires s.processing && !s.exit && s.hasSink && s.hasSensor && s.sensorFrame.Some?
    requires s.sensorFrame.value.hostTicks != s.prevTimestamp
    ensures ProcessStep(s, 0).sent == s.sent + [s.sensorFrame.value]
  {
  }

  // ----- Any order of steps -------------------------------------------------

  datatype Event =
    | Start
    | Stop
    | Consent(waitResult: WaitResult, consent: SensorConsent, openStreamSucceeded: bool)
    | Acquire(nextBuffer: Option<SensorFrame>)
    | Process

  /** The event cannot happen in the state without ending the process. */
  predicate Terminates(s: ProcessorState, minDelta: uint64, e: Event)
  {
    match e
    case Start => StartTerminates(s)
    case Consent(w, c, _) => ConsentDereferencesNull(s, w, c)
    case Process => ProcessDereferencesNull(s, minDelta)
    case _ => false
  }

  function Apply(s: ProcessorState, minDelta: uint64, e: Event): ProcessorState
    requires !Terminates(s, minDelta, e)
  {
    match e
    case Start => StartStep(s)
    case Stop => StopStep(s)
    case Consent(w, c, ok) => ConsentStep(s, w, c, ok)
    case Acquire(next) => AcquireStep(s, next)
    case Process => ProcessStep(s, minDelta)
  }

  /** The state after the events. A Start on a started processor ends the
      process, so no later event happens: the run stops with the state, and
      the frames sent, it had reached. */
  function Run(s: ProcessorState, minDelta: uint64, events: seq<Event>): ProcessorState
    decreases |events|
  {
    if events == [] then s
    else if Terminates(s, minDelta, events[0]) then s
    else Run(Apply(s, minDelta, events[0]), minDelta, events[1..])
  }

  /** A second Start without a Stop in between ends the run: nothing after
      it is sent. */
  lemma DoubleStartEndsRun(s: ProcessorState, minDelta: uint64, events: seq<Event>)
    requires !StartTerminates(s)
    ensures Run(s, minDelta, [Start, Start] + events) == StartStep(s)
  {
    assert ([Start, Start] + events)[1..] == [Start] + events;
  }

  /** A frame acquired in one run is still in the slot after Stop; if the
      next run's OpenStream fails, the processing pass that accepts that
      frame dereferences the null sensor, and the run ends with nothing sent. */
  lemma StaleFrameAfterFailedOpenEndsRun(f: SensorFrame, minDelta: uint64)
    requires 0 < f.hostTicks && minDelta <= f.hostTicks
    ensures var s6 := ConsentStep(StartStep(StopStep(AcquireStep(ConsentStep(StartStep(InitialState(true)),
                                   WaitObject0, Allowed, true), Some(f)))), WaitObject0, Allowed, false);
      && ProcessDereferencesNull(s6, minDelta)
      && Run(InitialState(true), minDelta, [Start, Consent(WaitObject0, Allowed, true), Acquire(Some(f)), Stop,
                                           Start, Consent(WaitObject0, Allowed, false), Process]) == s6
      && s6.sent == [] && s6.sensorFrame == Some(f)
  {
    var events := [Start, Consent(WaitObject0, Allowed, true), Acquire(Some(f)), Stop,
                   Start, Consent(WaitObject0, Allowed, false), Process];
    var s0 := InitialState(true);
    var s1 := StartStep(s0);
    var s2 := ConsentStep(s1, WaitObject0, Allowed, true);
    var s3 := AcquireStep(s2, Some(f));
    var s4 := StopStep(s3);
    var s5 := StartStep(s4);
    var s6 := ConsentStep(s5, WaitObject0, Allowed, false);
    assert Run(s6, minDelta, events[6..]) == s6;
    assert Run(s5, minDelta, events[5..]) == Run(s6, minDelta, events[6..]);
    assert Run(s4, minDelta, events[4..]) == Run(s5, minDelta, events[5..]);
    assert Run(s3, minDelta, events[3..]) == Run(s4, minDelta, events[4..]);
    assert Run(s2, minDelta, events[2..]) == Run(s3, minDelta, events[3..]);
    assert Run(s1, minDelta, events[1..]) == Run(s2, minDelta, events[2..]);
    assert Run(s0, minDelta, events) == Run(s1, minDelta, events[1..]);
  }

  /** Every frame GetNextBuffer yields has a HostTicks no smaller than
      `floor` and than every frame yielded before it. */
  ghost predicate PublishedNonDecreasing(floor: int, events: seq<Event>)
    decreases |events|
  {
    events == [] ||
    match events[0]
    case Acquire(Some(f)) => floor <= f.hostTicks && PublishedNonDecreasing(f.hostTicks, events[1..])
    case _ => PublishedNonDecreasing(floor, events[1..])
  }

  /** Sent HostTicks strictly increase, consecutive ones at least minDelta apart. */
  ghost predicate SentSpaced(sent: seq<SensorFrame>, minDelta: int)
  {
    forall i :: 0 < i < |sent| ==>
      sent[i - 1].hostTicks < sent[i].hostTicks && sent[i].hostTicks - sent[i - 1].hostTicks >= minDelta
  }

  ghost predicate Inv(s: ProcessorState, minDelta: uint64, floor: int)
  {
    && s.prevTimestamp <= floor
    && (s.sensorFrame.Some? ==> s.prevTimestamp <= s.sensorFrame.value.hostTicks <= floor)
    && SentSpaced(s.sent, minDelta)
    && (s.sent == [] ==> s.prevTimestamp == 0)
    && (s.sent != [] ==> s.sent[|s.sent| - 1].hostTicks == s.prevTimestamp
                         && 0 < s.sent[0].hostTicks && s.sent[0].hostTicks >= minDelta)
  }

  lemma ProcessStepKeepsInv(s: ProcessorState, minDelta: uint64, floor: int)
    requires Inv(s, minDelta, floor) && !ProcessDereferencesNull(s, minDelta)
    ensures Inv(ProcessStep(s, minDelta), minDelta, floor)
  {
    var t := ProcessStep(s, minDelta);
    if t.sent != s.sent {
      var ticks := s.sensorFrame.value.hostTicks;
      AcceptsForward(s.prevTimestamp, minDelta, ticks);
      assert t.sent == s.sent + [s.sensorFrame.value];
      forall i | 0 < i < |t.sent|
        ensures t.sent[i - 1].hostTicks < t.sent[i].hostTicks
             && t.sent[i].hostTicks - t.sent[i - 1].hostTicks >= minDelta
      {
        if i < |s.sent| {
          assert t.sent[i - 1] == s.sent[i - 1] && t.sent[i] == s.sent[i];
        }
      }
    }
  }

  lemma {:induction false} RunKeepsInv(s: ProcessorState, minDelta: uint64, floor: int, events: seq<Event>)
    requires Inv(s, minDelta, floor)
    requires PublishedNonDecreasing(floor, events)
    ensures SentSpaced(Run(s, minDelta, events).sent, minDelta)
    ensures var sent := Run(s, minDelta, events).sent;
      sent != [] ==> 0 < sent[0].hostTicks && sent[0].hostTicks >= minDelta
    decreases |events|
  {
    if events != [] && !Terminates(s, minDelta, events[0]) {
      var floor' := NextFloor(floor, events[0]);
      ApplyKeepsInv(s, minDelta, floor, events);
      RunKeepsInv(Apply(s, minDelta, events[0]), minDelta, floor', events[1..]);
    }
  }

  /** The floor after an event: the HostTicks of a yielded frame, else unchanged. */
  function NextFloor(floor: int, e: Event): int
  {
    if e.Acquire? && e.nextBuffer.Some? then e.nextBuffer.value.hostTicks else floor
  }

  /** One event keeps the invariant, moving the floor to a yielded frame's HostTicks. */
  lemma ApplyKeepsInv(s: ProcessorState, minDelta: uint64, floor: int, events: seq<Event>)
    requires events != [] && !Terminates(s, minDelta, events[0]) && Inv(s, minDelta, floor)
    requires PublishedNonDecreasing(floor, events)
    ensures Inv(Apply(s, minDelta, events[0]), minDelta, NextFloor(floor, events[0]))
    ensures PublishedNonDecreasing(NextFloor(floor, events[0]), events[1..])
  {
    match events[0] {
      case Process => ProcessStepKeepsInv(s, minDelta, floor);
      case _ =>
    }
  }

  /** Whatever the order of acquisition, processing, consent, start and stop
      steps, if the frames GetNextBuffer yields never go back in time, the
      HostTicks handed to Send strictly increase, each at least minDelta after
      the previous one (the first at least minDelta after 0). */
  lemma SentTimestampsIncrease(hasSink: bool, minDelta: uint64, events: seq<Event>)
    requires PublishedNonDecreasing(0, events)
    ensures SentSpaced(Run(InitialState(hasSink), minDelta, events).sent, minDelta)
    ensures var sent := Run(InitialState(hasSink), minDelta, events).sent;
      sent != [] ==> 0 < sent[0].hostTicks && sent[0].hostTicks >= minDelta
  {
    RunKeepsInv(InitialState(hasSink), minDelta, 0, events);
  }

  /** The sequence 100, 100, 250, 400 with minDelta = 100: the first 100 is
      sent (its difference from the initial 0 is 100), the repeated 100 is
      dropped, and 250 and 400 are sent. */
  lemma ScenarioMinDelta100(f100: SensorFrame, g100: SensorFrame, f250: SensorFrame, f400: SensorFrame)
    requires f100.hostTicks == 100 && g100.hostTicks == 100 && f250.hostTicks == 250 && f400.hostTicks == 400
    ensures var s0 := ConsentStep(StartStep(InitialState(true)), WaitObject0, Allowed, true);
      var s1 := ProcessStep(AcquireStep(s0, Some(f100)), 100);
      var s2 := ProcessStep(AcquireStep(s1, Some(g100)), 100);
      var s3 := ProcessStep(AcquireStep(s2, Some(f250)), 100);
      var s4 := ProcessStep(AcquireStep(s3, Some(f400)), 100);
      s2.sent == [f100] && s4.sent == [f100, f250, f400]
  {
  }

  // ----- The processor object ------------------------------------------------

  class ResearchModeFrameProcessor {
    const minDelta: uint64
    var sensorFrame: Option<SensorFrame>
    var prevTimestamp: uint64
    var exit: bool
    var isRunning: bool
    var hasSensor: bool
    const hasSink: bool
    var phase: AcquisitionPhase
    var processing: bool
    /** The frames handed to the sink, oldest first. */
    ghost var sent: seq<SensorFrame>

    ghost function State(): ProcessorState
      reads this
    {
      ProcessorState(sensorFrame, prevTimestamp, exit, isRunning, hasSensor, hasSink, phase, processing, sent)
    }

    constructor (minDelta: uint64, hasSink: bool)
      ensures State() == InitialState(hasSink) && this.minDelta == minDelta
    {
      this.minDelta := minDelta;
      this.hasSink := hasSink;
      sensorFrame := None;
      prevTimestamp := 0;
      exit := false;
      isRunning := false;
      hasSensor := true;
      phase := NotStarted;
      processing := false;
      sent := [];
    }

    /** Start on a processor whose threads are still joinable terminates
        the process, so it is only modelled on one that is not. */
    method Start()
      requires !processing
      modifies this
      ensures State() == StartStep(old(State()))
    {
      exit := false;
      phase := AwaitingConsent;
      processing := true;
      isRunning := true;
    }

    method Stop()
      modifies this
      ensures State() == StopStep(old(State()))
    {
      exit := true;
      if phase != NotStarted {
        phase := Finished;
      }
      processing := false;
      isRunning := false;
    }

    /** The start of CameraUpdateThread, from the consent wait to OpenStream.
        With consent and a null sensor the OpenStream call would end the
        process, so that case is excluded. */
    method AwaitConsentAndOpen(waitResult: WaitResult, consent: SensorConsent, openStreamSucceeded: bool)
      returns (hr: HResult)
      requires phase == AwaitingConsent
      requires hasSensor || ConsentResult(waitResult, consent) != SOk
      modifies this
      ensures State() == ConsentStep(old(State()), waitResult, consent, openStreamSucceeded)
      ensures hr == ConsentResult(waitResult, consent)
    {
      hr := SOk;
      if waitResult == WaitObject0 {
        match consent {
          case Allowed =>
          case DeniedBySystem => hr := EAccessDenied;
          case DeniedByUser => hr := EAccessDenied;
          case NotDeclaredByApp => hr := EAccessDenied;
          case UserPromptRequired => hr := EAccessDenied;
          case UnnamedConsent(_) => hr := EAccessDenied;
        }
      } else {
        hr := EUnexpected;
      }
      if hr == SOk {
        if openStreamSucceeded {
          phase := Acquiring;
        } else {
          hasSensor := false;
          phase := Finished;
        }
      } else {
        phase := Finished;
      }
    }

    /** One pass of the acquisition loop; nextBuffer is what GetNextBuffer
        produced (None when it failed). */
    method AcquisitionStep(nextBuffer: Option<SensorFrame>)
      requires phase == Acquiring
      modifies this
      ensures State() == AcquireStep(old(State()), nextBuffer)
    {
      if exit || !hasSensor {
        phase := Finished;
        return;
      }
      if nextBuffer.Some? {
        sensorFrame := nextBuffer;
      }
    }

    /** IsValidTimestamp: reads and updates m_prevTimestamp only. */
    method IsValidTimestamp(pSensorFrame: Option<SensorFrame>) returns (valid: bool)
      modifies this`prevTimestamp
      ensures valid <==> pSensorFrame.Some? && Accepts(old(prevTimestamp), minDelta, pSensorFrame.value.hostTicks)
      ensures prevTimestamp == if valid then pSensorFrame.value.hostTicks else old(prevTimestamp)
    {
      if pSensorFrame.Some? {
        var timestamp := pSensorFrame.value.hostTicks;
        if prevTimestamp == timestamp {
          return false;
        }
        var delta := (timestamp - prevTimestamp) % TWO_64;
        if delta < minDelta {
          return false;
        }
        prevTimestamp := timestamp;
        return true;
      } else {
        return false;
      }
    }

    /** One pass of the processing loop. A pass that accepts a frame while
        the sensor is null would end the process in GetSensorType, so that
        case is excluded. */
    method ProcessingStep()
      requires processing
      requires hasSensor || exit || !hasSink || sensorFrame.None?
               || !Accepts(prevTimestamp, minDelta, sensorFrame.value.hostTicks)
      modifies this
      ensures State() == ProcessStep(old(State()), minDelta)
    {
      if exit || !hasSink {
        return;
      }
      if sensorFrame.Some? {
        var valid := IsValidTimestamp(sensorFrame);
        if valid {
          sent := sent + [sensorFrame.value];
        }
      }
    }
  }
}
