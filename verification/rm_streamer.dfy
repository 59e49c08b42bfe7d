/** ResearchModeFrameStreamer: the TCP sink of the depth pipeline. The
    listener, the socket and the DataWriter are reduced to whether a socket and
    a writer are held, and to the bytes handed to the current writer. */
module ResearchModeStreaming {
  import opened WireBytes
  import opened Frames
  import opened DepthEncoding

  /** The message Send writes for a frame that passes every guard: timestamp
      from the time converter, the frame's resolution, the located
      rig-to-world transform and the clamped samples. */
  function FrameMessage(frame: SensorFrame, rig2world: Float4x4, absoluteTimestamp: int): (r: seq<byte>)
    requires frame.depth.depthFrame.Some?
    ensures |r| == DEPTH_HEADER_SIZE + 2 * |frame.depth.depthFrame.value|
  {
    var res := frame.resolution;
    DepthMessage(absoluteTimestamp, res.width, res.height, res.bytesPerPixel,
                 rig2world, DepthPayload(frame.depth.depthFrame.value))
  }

  /** How Send ends, given whether a socket and a writer are held, the
      in-flight flag, the pose lookup at the frame's timestamp, the converted
      timestamp and how the writes go. */
  function SendResultOf(hasSocket: bool, hasWriter: bool, writeInProgress: bool, frame: SensorFrame,
                        location: Option<Float4x4>, absoluteTimestamp: int, outcome: WriteOutcome): (r: SendResult)
    ensures r.Written? <==>
      && hasSocket && hasWriter
      && location.Some?
      && frame.depth.succeeded && frame.depth.depthFrame.Some?
      && !writeInProgress
      && outcome.Stored?
    ensures r.Written? || r.WriteFailed? <==>
      hasSocket && hasWriter && location.Some? && frame.depth.succeeded && frame.depth.depthFrame.Some? && !writeInProgress
    ensures r.Written? || r.WriteFailed? ==> r.message == FrameMessage(frame, location.value, absoluteTimestamp)
    ensures r == NoConnection <==> !hasSocket || !hasWriter
    ensures r.WriteFailed? ==> outcome == Failed(r.status)
    ensures !r.StreamingDisabled?
  {
    if !hasSocket || !hasWriter then NoConnection
    else if location.None? then PoseUnavailable
    else if frame.depth.depthFrame.None? || !frame.depth.succeeded then NoDepthFrame
    else if writeInProgress then WriteInProgress
    else
      var message := FrameMessage(frame, location.value, absoluteTimestamp);
      match outcome
      case Stored => Written(message)
      case Failed(status) => WriteFailed(status, message)
  }

  class ResearchModeFrameStreamer {
    var hasSocket: bool
    var hasWriter: bool
    var writeInProgress: bool
    var isConnected: bool
    /** Bytes handed to the current connection's writer, oldest first,
        whether or not the store that followed them succeeded. */
    var written: seq<byte>

    /** Between calls no write is in flight: Send clears the flag on every
        path that sets it, so its WriteInProgress guard never fires. */
    predicate Valid()
      reads this
    {
      !writeInProgress
    }

    /** After construction the listener waits; no socket, no writer. */
    constructor ()
      ensures Valid() && !hasSocket && !hasWriter && !writeInProgress && !isConnected && written == []
    {
      hasSocket, hasWriter := false, false;
      writeInProgress := false;
      isConnected := false;
      written := [];
    }

    /** A new connection replaces socket and writer (the old one is dropped
        without a close), clears the in-flight flag and sets isConnected. */
    method OnConnectionReceived()
      modifies this
      ensures Valid() && hasSocket && hasWriter && !writeInProgress && isConnected && written == []
    {
      hasSocket := true;
      hasWriter := true;
      written := [];
      writeInProgress := false;
      isConnected := true;
    }

    /** Send one depth frame. Only `written` can change: the flags and the
        connection are left exactly as found. In particular the reset-by-peer
        branch compares writer and socket with nullptr instead of clearing
        them, and the in-flight flag, set before the writes, is cleared
        unconditionally afterwards. */
    method Send(frame: SensorFrame, location: Option<Float4x4>, absoluteTimestamp: int, outcome: WriteOutcome)
      modifies this
      ensures var r := SendResultOf(old(hasSocket), old(hasWriter), old(writeInProgress),
                                    frame, location, absoluteTimestamp, outcome);
        && written == old(written) + (if r.Written? || r.WriteFailed? then r.message else [])
        && (old(Valid()) ==> r != WriteInProgress)
      ensures hasSocket == old(hasSocket) && hasWriter == old(hasWriter)
      ensures isConnected == old(isConnected)
      ensures writeInProgress == old(writeInProgress)
      ensures old(Valid()) ==> Valid()
    {
      if !hasSocket || !hasWriter {
        return;
      }
      if location.None? {
        return;
      }
      var rig2worldTransform := location.value;
      if frame.depth.depthFrame.None? || !frame.depth.succeeded {
        return;
      }
      var resolution := frame.resolution;
      var depthByteData := PackDepthSamples(frame.depth.depthFrame.value);
      if writeInProgress {
        return;
      }
      writeInProgress := true;
      written := written + DepthMessage(absoluteTimestamp, resolution.width, resolution.height,
                                        resolution.bytesPerPixel, rig2worldTransform, depthByteData);
      // StoreAsync runs after the writes: a failure leaves the message with the writer.
      if outcome == Failed(ConnectionResetByPeer) {
        // `m_writer == nullptr; m_streamSocket == nullptr;` are comparisons: nothing is cleared.
        writeInProgress := false;
      }
      writeInProgress := false;
    }
  }

  /** On one streamer, a write that fails with ConnectionResetByPeer leaves
      socket and writer in place (its message already with the writer), so
      the next frame is written to the same connection. */
  method ResetByPeerDoesNotDisconnect(streamer: ResearchModeFrameStreamer, f: SensorFrame, g: SensorFrame,
                                      rig2world: Float4x4, t1: int, t2: int)
    requires streamer.Valid() && streamer.hasSocket && streamer.hasWriter
    requires f.depth.succeeded && f.depth.depthFrame.Some?
    requires g.depth.succeeded && g.depth.depthFrame.Some?
    modifies streamer
    ensures streamer.Valid() && streamer.hasSocket && streamer.hasWriter
    ensures streamer.written == old(streamer.written) + FrameMessage(f, rig2world, t1) + FrameMessage(g, rig2world, t2)
  {
    streamer.Send(f, Some(rig2world), t1, Failed(ConnectionResetByPeer));
    streamer.Send(g, Some(rig2world), t2, Stored);
  }
}
