/** Values that cross component boundaries: the frames the sensors deliver and
    the outcome of a socket write. The platform calls that produce them
    (GetNextBuffer, TryAcquireLatestFrame, QueryInterface, GetBuffer,
    SoftwareBitmap::Convert, DataWriter writes) are outside the model; their
    results are carried here as plain values. */
module Frames {
  import opened WireBytes

  datatype Option<+T> = None | Some(value: T)

  /** ResearchModeSensorResolution. */
  datatype Resolution = Resolution(width: uint32, height: uint32, bytesPerPixel: uint32)

  /** What QueryInterface for IResearchModeSensorDepthFrame returned: its
      HRESULT, and the depth frame with the samples GetBuffer exposes. */
  datatype DepthQuery = DepthQuery(succeeded: bool, depthFrame: Option<seq<uint16>>)

  /** One IResearchModeSensorFrame: HostTicks of its timestamp, its
      resolution and the depth-frame query it answers. */
  datatype SensorFrame = SensorFrame(hostTicks: uint64, resolution: Resolution, depth: DepthQuery)

  /** The video frame's bitmap after conversion to Bgra8: 4 bytes per pixel. */
  datatype Bgra8Bitmap = Bgra8Bitmap(pixelWidth: nat, pixelHeight: nat, data: seq<byte>)

  /** One MediaFrameReference: its SystemRelativeTime, camera focal lengths
      (opaque float words) and converted bitmap. */
  datatype VideoFrame = VideoFrame(systemRelativeTime: int, fx: FloatWord, fy: FloatWord, bitmap: Bgra8Bitmap)

  datatype SocketErrorStatus = ConnectionResetByPeer | OtherSocketError

  /** How the writes of one message end: stored, or an hresult_error thrown
      by the writer, classified by its SocketErrorStatus. */
  datatype WriteOutcome = Stored | Failed(status: SocketErrorStatus)

  /** How one call of a streamer's Send ends: the guard that dropped the
      frame, or the message handed to the writer together with whether its
      store succeeded. The writes precede StoreAsync, so a failed store has
      still handed its message to the writer. */
  datatype SendResult =
    | NoConnection
    | StreamingDisabled
    | PoseUnavailable
    | NoDepthFrame
    | WriteInProgress
    | Written(message: seq<byte>)
    | WriteFailed(status: SocketErrorStatus, message: seq<byte>)
}
