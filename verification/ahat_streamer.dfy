/** Streamer: the TCP sink the plugin actually wires to the AHAT depth
    processor. Same message as ResearchModeFrameStreamer, plus the
    m_streamingEnabled latch; its depth-frame guard checks only for a null frame,
    and it releases the depth frame by hand at the end of Send. */
module AhatStreaming {
  import opened WireBytes
  import opened Frames
  import opened DepthEncoding
  import ResearchModeStreaming

  /** How Streamer::Send ends. The QueryInterface HRESULT is not looked at:
      only a null depth frame drops the frame. */
  function SendResultOf(hasSocket: bool, hasWriter: bool, streamingEnabled: bool, writeInProgress: bool,
                        frame: SensorFrame, location: Option<Float4x4>, absoluteTimestamp: int,
                        outcome: WriteOutcome): (r: SendResult)
    ensures r.Written? <==>
      && hasSocket && hasWriter
      && streamingEnabled
      && location.Some?
      && frame.depth.depthFrame.Some?
      && !writeInProgress
      && outcome.Stored?
    ensures r.Written? || r.WriteFailed? <==>
      hasSocket && hasWriter && streamingEnabled && location.Some? && frame.depth.depthFrame.Some? && !writeInProgress
    ensures r.Written? || r.WriteFailed? ==>
      r.message == ResearchModeStreaming.FrameMessage(frame, location.value, absoluteTimestamp)
    ensures r == StreamingDisabled <==> hasSocket && hasWriter && !streamingEnabled
    ensures r.WriteFailed? ==> outcome == Failed(r.status)
  {
    if !hasSocket || !hasWriter then NoConnection
    else if !streamingEnabled then StreamingDisabled
    else if location.None? then PoseUnavailable
    else if frame.depth.depthFrame.None? then NoDepthFrame
    else if writeInProgress then WriteInProgress
    else
      var message := ResearchModeStreaming.FrameMessage(frame, location.value, absoluteTimestamp);
      match outcome
      case Stored => Written(message)
      case Failed(status) => WriteFailed(status, message)
  }

  /** Unlike ResearchModeFrameStreamer, a failed QueryInterface with a
      non-null depth frame still sends the frame. */
  lemma QueryResultIgnored(frame: SensorFrame, rig2world: Float4x4, absoluteTimestamp: int)
    requires !frame.depth.succeeded && frame.depth.depthFrame.Some?
    ensures SendResultOf(true, true, true, false, frame, Some(rig2world), absoluteTimestamp, Stored).Written?
    ensures ResearchModeStreaming.SendResultOf(true, true, false, frame, Some(rig2world), absoluteTimestamp, Stored)
            == NoDepthFrame
  {
  }

  class Streamer {
    var hasSocket: bool
    var hasWriter: bool
    var writeInProgress: bool
    var streamingEnabled: bool
    /** Bytes handed to the current connection's writer, oldest first,
        whether or not the store that followed them succeeded. */
    var written: seq<byte>

    /** Between calls no write is in flight: Send clears the flag on every
        path that sets it, so its WriteInProgress guard never fires. */
    predicate Valid()
      reads this
    {
      !writeInProgress
    }
    /** Number of depth frames Send has released with pDepthFrame->Release(). */
    ghost var releasedDepthFrames: nat

    /** The initial value of m_streamingEnabled is declared in Streamer.h,
        which is not part of this model, so it is a parameter here. */
    constructor (initiallyEnabled: bool)
      ensures Valid() && !hasSocket && !hasWriter && !writeInProgress && written == []
      ensures streamingEnabled == initiallyEnabled && releasedDepthFrames == 0
    {
      hasSocket, hasWriter := false, false;
      writeInProgress := false;
      streamingEnabled := initiallyEnabled;
      written := [];
      releasedDepthFrames := 0;
    }

    /** A new connection replaces socket and writer, clears the in-flight
        flag and re-enables streaming, even if it had been toggled off. */
    method OnConnectionReceived()
      modifies this
      ensures Valid() && hasSocket && hasWriter && !writeInProgress && streamingEnabled && written == []
      ensures releasedDepthFrames == old(releasedDepthFrames)
    {
      hasSocket := true;
      hasWriter := true;
      written := [];
      writeInProgress := false;
      streamingEnabled := true;
    }

    /** Flip the latch; nothing else changes, so two toggles restore it. */
    method StreamingToggle()
      modifies this`streamingEnabled
      ensures streamingEnabled == !old(streamingEnabled)
      ensures old(Valid()) ==> Valid()
    {
      if streamingEnabled {
        streamingEnabled := false;
      } else if !streamingEnabled {
        streamingEnabled := true;
      }
    }

    /** Send one depth frame. Connection, latch and in-flight flag are left as
        found (the reset-by-peer branch only compares with nullptr). The depth
        frame is released only when the write was attempted: the early return
        on a write in progress skips the release. */
    method Send(frame: SensorFrame, location: Option<Float4x4>, absoluteTimestamp: int, outcome: WriteOutcome)
      modifies this
      ensures var r := SendResultOf(old(hasSocket), old(hasWriter), old(streamingEnabled), old(writeInProgress),
                                    frame, location, absoluteTimestamp, outcome);
        && written == old(written) + (if r.Written? || r.WriteFailed? then r.message else [])
        && (old(Valid()) ==> r != WriteInProgress)
        && releasedDepthFrames == old(releasedDepthFrames) + (if r.Written? || r.WriteFailed? then 1 else 0)
      ensures hasSocket == old(hasSocket) && hasWriter == old(hasWriter)
      ensures streamingEnabled == old(streamingEnabled)
      ensures writeInProgress == old(writeInProgress)
      ensures old(Valid()) ==> Valid()
    {
      if !hasSocket || !hasWriter {
        return;
      }
      if !streamingEnabled {
        return;
      }
      if location.None? {
        return;
      }
      var rig2worldTransform := location.value;
      var pDepthFrame := frame.depth.depthFrame;
      if pDepthFrame.None? {
        return;
      }
      var resolution := frame.resolution;
      var depthByteData := PackDepthSamples(pDepthFrame.value);
      if writeInProgress {
        return;
      }
      writeInProgress := true;
      written := written + DepthMessage(absoluteTimestamp, resolution.width, resolution.height,
                                        resolution.bytesPerPixel, rig2worldTransform, depthByteData);
      // StoreAsync runs after the writes: a failure leaves the message with the writer.
      if outcome == Failed(ConnectionResetByPeer) {
        // `m_writer == nullptr; m_streamSocket == nullptr;` are comparisons: nothing is cleared.
        writeInProgress := false;
      }
      writeInProgress := false;
      releasedDepthFrames := releasedDepthFrames + 1;
    }
  }
}
