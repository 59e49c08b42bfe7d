/** VideoCameraStreamer: the TCP sink of the video pipeline. */
module VideoStreaming {
  import opened WireBytes
  import opened Frames
  import opened VideoEncoding

  /** The Bgra8 buffer holds every pixel the repacking loops read. */
  predicate BitmapComplete(b: Bgra8Bitmap)
  {
    |b.data| >= 4 * (b.pixelWidth * b.pixelHeight)
  }

  /** The message Send writes for a frame that passes every guard. */
  function FrameMessage(pFrame: VideoFrame, pTimestamp: int, pvToWorld: Float4x4): (r: seq<byte>)
    requires BitmapComplete(pFrame.bitmap)
    ensures |r| == VIDEO_HEADER_SIZE + 3 * (pFrame.bitmap.pixelWidth * pFrame.bitmap.pixelHeight)
  {
    var b := pFrame.bitmap;
    VideoMessage(pTimestamp, b.pixelWidth, b.pixelHeight, pFrame.fx, pFrame.fy, pvToWorld,
                 StripAlpha(b.data, b.pixelWidth * b.pixelHeight))
  }

  /** How VideoCameraStreamer::Send ends, given the connection, the in-flight
      flag, the camera-to-world lookup and how the writes go. */
  function SendResultOf(hasSocket: bool, hasWriter: bool, writeInProgress: bool, pFrame: VideoFrame,
                        pTimestamp: int, pvToWorld: Option<Float4x4>, outcome: WriteOutcome): (r: SendResult)
    requires BitmapComplete(pFrame.bitmap)
    ensures r.Written? <==> hasSocket && hasWriter && pvToWorld.Some? && !writeInProgress && outcome.Stored?
    ensures r.Written? || r.WriteFailed? <==> hasSocket && hasWriter && pvToWorld.Some? && !writeInProgress
    ensures r.Written? || r.WriteFailed? ==> r.message == FrameMessage(pFrame, pTimestamp, pvToWorld.value)
    ensures r == NoConnection <==> !hasSocket || !hasWriter
    ensures r.WriteFailed? ==> outcome == Failed(r.status)
    ensures !r.StreamingDisabled? && !r.NoDepthFrame?
  {
    if !hasSocket || !hasWriter then NoConnection
    else if pvToWorld.None? then PoseUnavailable
    else if writeInProgress then WriteInProgress
    else
      var message := FrameMessage(pFrame, pTimestamp, pvToWorld.value);
      match outcome
      case Stored => Written(message)
      case Failed(status) => WriteFailed(status, message)
  }

  class VideoCameraStreamer {
    var hasSocket: bool
    var hasWriter: bool
    var writeInProgress: bool
    var isConnected: bool
    /** Bytes handed to the current connection's writer, oldest first,
        whether or not the store that followed them succeeded. */
    var written: seq<byte>

    /** Between calls no write is in flight: Send clears the flag on every
        path that sets it, so its WriteInProgress guard never fires. */
    predicate Valid()
      reads this
    {
      !writeInProgress
    }

    constructor ()
      ensures Valid() && !hasSocket && !hasWriter && !writeInProgress && !isConnected && written == []
    {
      hasSocket, hasWriter := false, false;
      writeInProgress := false;
      isConnected := false;
      written := [];
    }

    /** A new connection replaces socket and writer, clears the in-flight
        flag and sets isConnected. */
    method OnConnectionReceived()
      modifies this
      ensures Valid() && hasSocket && hasWriter && !writeInProgress && isConnected && written == []
    {
      hasSocket := true;
      hasWriter := true;
      written := [];
      writeInProgress := false;
      isConnected := true;
    }

    /** Send one video frame with the timestamp the processor computed. The
        header carries pTimestamp unchanged, pixel stride 3 and row stride
        3 * width; the payload is the bitmap without its alpha bytes. The
        flags and the connection are left as found. */
    method Send(pFrame: VideoFrame, pTimestamp: int, pvToWorld: Option<Float4x4>, outcome: WriteOutcome)
      requires BitmapComplete(pFrame.bitmap)
      modifies this
      ensures var r := SendResultOf(old(hasSocket), old(hasWriter), old(writeInProgress),
                                    pFrame, pTimestamp, pvToWorld, outcome);
        && written == old(written) + (if r.Written? || r.WriteFailed? then r.message else [])
        && (old(Valid()) ==> r != WriteInProgress)
      ensures hasSocket == old(hasSocket) && hasWriter == old(hasWriter)
      ensures isConnected == old(isConnected)
      ensures writeInProgress == old(writeInProgress)
      ensures old(Valid()) ==> Valid()
    {
      if !hasSocket || !hasWriter {
        return;
      }
      var fx := pFrame.fx;
      var fy := pFrame.fy;
      if pvToWorld.None? {
        return;
      }
      var pvToWorldTransform := pvToWorld.value;
      var softwareBitmap := pFrame.bitmap;
      var imageWidth := softwareBitmap.pixelWidth;
      var imageHeight := softwareBitmap.pixelHeight;
      var imageBufferAsVector := RepackBgra(softwareBitmap.data, imageWidth, imageHeight);
      if writeInProgress {
        return;
      }
      writeInProgress := true;
      written := written + VideoMessage(pTimestamp, imageWidth, imageHeight, fx, fy,
                                        pvToWorldTransform, imageBufferAsVector);
      // StoreAsync runs after the writes: a failure leaves the message with the writer.
      if outcome == Failed(ConnectionResetByPeer) {
        // `m_writer == nullptr; m_streamSocket == nullptr;` are comparisons: nothing is cleared.
        writeInProgress := false;
      }
      writeInProgress := false;
    }
  }
}
