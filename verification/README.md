# HoloLens 2 research-mode streaming, modelled in Dafny

The HoloLens 2 plugin pulls frames from two sensors and streams them over TCP
to a Python client. The AHAT depth camera goes through
`ResearchModeFrameProcessor`, then the `Streamer` or `ResearchModeFrameStreamer`
sink. The PV video camera goes through `VideoCameraFrameProcessor`, then the
`VideoCameraStreamer` sink. This project models that core and proves what it
promises:

- **The frame-rate filters and latest-frame slots of both processors.** Each
  thread's loop body is one atomic step on a state record.
  For the video processor, a trace of such steps in any order keeps the sent
  timestamps spaced by more than the minimum delta. For the depth processor,
  the same holds provided the frames GetNextBuffer yields never go back in
  time: its unsigned 64-bit difference, modelled modulo 2^64, accepts an
  older HostTicks once the difference wraps.
- **The depth and video wire messages.** The little-endian header is
  `WriteUInt64`/`WriteInt32`/`WriteSingle`. It is followed by the 4x4
  transform written row by row. For depth, the payload is the clamped samples
  packed high byte first. For video, it is the Bgra8 bitmap without its alpha
  bytes.
- **The send gating of the three streamers.** This covers the connection,
  the streaming latch, the pose lookup, the depth-frame query, the in-flight
  flag and the write outcome, including the reset-by-peer branch.
- **The selection loops of `VideoCameraFrameProcessor::InitializeAsync`** and
  **the consent decision** of the depth acquisition thread.
- **The Python reference client:** `struct.unpack` under `@qIIII16f` and
  `@qIIII18f`, `recvall`, `get_data_from_socket`, the numpy reshapes of
  `listen`, and `get_mat_from_header`.

The modules follow the source files:

- `WireBytes` (wire_bytes.dfy): DataWriter words and 16-bit packing.
- `Frames` (frames.dfy): the frame and result values.
- `DepthEncoding` and `VideoEncoding`: the two messages.
- `ResearchModeStreaming`, `AhatStreaming` and `VideoStreaming`: the three
  streamer classes.
- `ResearchModeProcessing` and `VideoProcessing`: the two processor classes,
  with their step functions and trace lemmas.
- `VideoSelection`: `InitializeAsync`.
- `SimpleClient`: the Python client.
- `RoundTrip`: what the client decodes from what the server writes.

Each class method is tied to a pure step function by `ensures State() ==
Step(old(State()), ...)`. The properties are proved about the step
functions, over every sequence of steps.

Floats travel as opaque 32-bit words, since the code only copies their bit
patterns. Platform objects (the locator, the time converter, the socket, the
media-capture enumerations) become parameters.

## Model

| member | source | states |
|---|---|---|
| WireBytes.LE32RoundTrip | HL2RmStreamUnityPlugin/ResearchModeFrameStreamer.cpp:195-198 | Reading back the four little-endian bytes of a 32-bit word gives the word. |
| WireBytes.LE64RoundTrip | HL2RmStreamUnityPlugin/ResearchModeFrameStreamer.cpp:194 | Reading back the eight little-endian bytes of a 64-bit word gives the word. |
| WireBytes.WriteUInt64 | HL2RmStreamUnityPlugin/ResearchModeFrameStreamer.cpp:194 | WriteUInt64 on a signed long long emits 8 bytes that read back as the value modulo 2^64. |
| WireBytes.WriteInt32 | HL2RmStreamUnityPlugin/ResearchModeFrameStreamer.cpp:195-198 | WriteInt32 emits 4 bytes that read back as the value modulo 2^32 (two's complement). |
| WireBytes.WriteSingle | HL2RmStreamUnityPlugin/VideoCameraStreamer.cpp:200-201 | WriteSingle emits the 4 bytes of the float's bit pattern, which read back unchanged. |
| WireBytes.WriteWordsAt | HL2RmStreamUnityPlugin/ResearchModeFrameStreamer.cpp:235-257 | In consecutive WriteSingle output, word k occupies bytes 4k to 4k+3. |
| WireBytes.MatrixLayout | HL2RmStreamUnityPlugin/ResearchModeFrameStreamer.cpp:235-257 | WriteMatrix4x4 writes m11..m44 row by row: entry (i, j) reads back from bytes 4(4i+j) to 4(4i+j)+3. |
| WireBytes.BE16RoundTrip | HL2RmStreamUnityPlugin/ResearchModeFrameStreamer.cpp:177-178 | A sample pushed as (BYTE)(d >> 8) then (BYTE)d reads back as d in big-endian order. |
| WireBytes.BE16ReadAsLE | HL2RmStreamUnityPlugin/ResearchModeFrameStreamer.cpp:177-178 | Read little-endian, the same two bytes give the byte-swapped sample, and they give the sample itself exactly when its two bytes are equal. |
| DepthEncoding.Clamp | HL2RmStreamUnityPlugin/ResearchModeFrameStreamer.cpp:137-138 | A clamped sample is below the AHAT invalidation value 4090; samples below it are kept, and any changed sample becomes 0. |
| DepthEncoding.DepthPayloadAt | HL2RmStreamUnityPlugin/ResearchModeFrameStreamer.cpp:164-179 | In the packed payload, sample k is bytes 2k (high byte) and 2k+1 (low byte) of its clamped value. |
| DepthEncoding.PackDepthSamples | HL2RmStreamUnityPlugin/ResearchModeFrameStreamer.cpp:160-179 | The sample loop produces 2 bytes per sample, and each pair reads back big-endian as the clamped sample. |
| DepthEncoding.DepthMessageLayout | HL2RmStreamUnityPlugin/ResearchModeFrameStreamer.cpp:194-202 | In a depth message, bytes 0-7 read back as the timestamp mod 2^64, 8-23 as width, height, pixel stride and width*stride mod 2^32, 24-87 are the matrix, and the rest is the payload. |
| VideoEncoding.StripAlphaAt | HL2RmStreamUnityPlugin/VideoCameraStreamer.cpp:169-180 | Output byte 3(rW+c)+j of the stripped image is input byte 4(rW+c)+j for each colour channel j < 3; the alpha byte is never copied. |
| VideoEncoding.AppendPixel | HL2RmStreamUnityPlugin/VideoCameraStreamer.cpp:174-178 | The inner j loop appends the first three bytes of the pixel at 4p and keeps the output a stripped prefix of the bitmap. |
| VideoEncoding.RepackBgra | HL2RmStreamUnityPlugin/VideoCameraStreamer.cpp:169-180 | The row/column/channel loops produce exactly the bitmap with every alpha byte removed: height*width*3 bytes in pixel order. |
| VideoEncoding.IntegerFieldsLayout | HL2RmStreamUnityPlugin/VideoCameraStreamer.cpp:195-199 | The five integer header fields occupy bytes 0-7, 8-11, 12-15, 16-19 and 20-23, in write order. |
| VideoEncoding.VideoHeaderLayout | HL2RmStreamUnityPlugin/VideoCameraStreamer.cpp:195-201 | The 32-byte video header reads back as the timestamp, width, height, pixel stride 3, row stride 3*width, fx and fy. |
| VideoEncoding.VideoMessageLayout | HL2RmStreamUnityPlugin/VideoCameraStreamer.cpp:195-205 | In a video message, the header fields read back at their offsets, bytes 32-95 are the matrix, and the rest is the repacked image. |
| ResearchModeStreaming.FrameMessage | HL2RmStreamUnityPlugin/ResearchModeFrameStreamer.cpp:153-202 | A depth frame's message is the 88-byte header plus two bytes per sample. |
| ResearchModeStreaming.SendResultOf | HL2RmStreamUnityPlugin/ResearchModeFrameStreamer.cpp:98-232 | The message reaches the writer iff socket and writer exist, the pose is located, QueryInterface succeeded with a depth frame and no write is in flight. It is reported Written iff the store then succeeds, and WriteFailed with the socket status and the same message otherwise. It returns NoConnection iff the socket or writer is missing. |
| ResearchModeStreaming.ResearchModeFrameStreamer.constructor | HL2RmStreamUnityPlugin/ResearchModeFrameStreamer.cpp:14-61 | A new streamer holds no socket and no writer, and nothing is in flight or written. |
| ResearchModeStreaming.ResearchModeFrameStreamer.OnConnectionReceived | HL2RmStreamUnityPlugin/ResearchModeFrameStreamer.cpp:63-96 | A connection installs socket and writer, clears the in-flight flag and sets isConnected. |
| ResearchModeStreaming.ResearchModeFrameStreamer.Send | HL2RmStreamUnityPlugin/ResearchModeFrameStreamer.cpp:98-232 | The writer receives exactly the frame's message when SendResultOf says Written or WriteFailed (the writes precede StoreAsync), and nothing otherwise. Socket, writer, isConnected and the in-flight flag end as they began, so a streamer that is Valid (no write in flight) stays Valid and never reports WriteInProgress. |
| ResearchModeStreaming.ResetByPeerDoesNotDisconnect | HL2RmStreamUnityPlugin/ResearchModeFrameStreamer.cpp:209-218 | On one valid connected streamer, a Send whose store fails with ConnectionResetByPeer followed by a Send that stores leaves socket and writer in place and appends both frames' messages to the writer, in order. |
| AhatStreaming.SendResultOf | HL2RmStreamUnityPlugin/Streamer.cpp:79-223 | As for the research-mode streamer (the message reaches the writer iff every guard passes, and is reported Written iff the store succeeds), with one difference: it also requires streaming to be enabled. It returns StreamingDisabled iff it is connected and the latch is off. Only a null depth frame, not the QueryInterface result, drops the frame. |
| AhatStreaming.QueryResultIgnored | HL2RmStreamUnityPlugin/Streamer.cpp:129-137 | With a failed QueryInterface but a depth frame, Streamer sends the frame while ResearchModeFrameStreamer drops it. |
| AhatStreaming.Streamer.constructor | HL2RmStreamUnityPlugin/Streamer.cpp:13-58 | A new streamer has no connection, nothing written and no frames released; its latch is the given initial value. |
| AhatStreaming.Streamer.OnConnectionReceived | HL2RmStreamUnityPlugin/Streamer.cpp:60-77 | A connection installs socket and writer, clears the in-flight flag and re-enables streaming. |
| AhatStreaming.Streamer.StreamingToggle | HL2RmStreamUnityPlugin/Streamer.cpp:225-241 | The latch flips and nothing else changes. |
| AhatStreaming.Streamer.Send | HL2RmStreamUnityPlugin/Streamer.cpp:79-223 | The writer receives exactly the frame's message when SendResultOf says Written or WriteFailed, and nothing otherwise. The depth frame is released only when the write was attempted. Connection, latch and in-flight flag end as they began, so a Valid streamer stays Valid and never reports WriteInProgress. |
| VideoStreaming.FrameMessage | HL2RmStreamUnityPlugin/VideoCameraStreamer.cpp:132-205 | A video frame's message is the 96-byte header plus 3 bytes per pixel. |
| VideoStreaming.SendResultOf | HL2RmStreamUnityPlugin/VideoCameraStreamer.cpp:95-233 | The message reaches the writer iff socket and writer exist, the camera-to-world transform is found and no write is in flight. It is reported Written iff the store then succeeds, and WriteFailed with the same message otherwise. It returns NoConnection iff the socket or writer is missing. |
| VideoStreaming.VideoCameraStreamer.constructor | HL2RmStreamUnityPlugin/VideoCameraStreamer.cpp:20-62 | A new streamer holds no connection and has written nothing. |
| VideoStreaming.VideoCameraStreamer.OnConnectionReceived | HL2RmStreamUnityPlugin/VideoCameraStreamer.cpp:64-92 | A connection installs socket and writer, clears the in-flight flag and sets isConnected. |
| VideoStreaming.VideoCameraStreamer.Send | HL2RmStreamUnityPlugin/VideoCameraStreamer.cpp:95-233 | The writer receives exactly the frame's message (timestamp unchanged, alpha stripped) when SendResultOf says Written or WriteFailed, and nothing otherwise. The flags end as they began, so a Valid streamer stays Valid and never reports WriteInProgress. |
| ResearchModeProcessing.ConsentResult | HL2RmStreamUnityPlugin/ResearchModeFrameProcessor.cpp:86-119 | S_OK iff the wait returned WAIT_OBJECT_0 and consent is Allowed; E_ACCESSDENIED iff the wait succeeded with any other consent; E_UNEXPECTED iff the wait failed. |
| ResearchModeProcessing.AcceptsForward | HL2RmStreamUnityPlugin/ResearchModeFrameProcessor.cpp:200-223 | For a timestamp not older than the last sent one, IsValidTimestamp accepts iff it is newer and at least minDelta later. |
| ResearchModeProcessing.AcceptsBackward | HL2RmStreamUnityPlugin/ResearchModeFrameProcessor.cpp:211-212 | For an older timestamp, the unsigned difference wraps to 2^64 minus the gap, and the frame is accepted iff that is at least minDelta. |
| ResearchModeProcessing.AcceptsWithZeroMinDelta | HL2RmStreamUnityPlugin/ResearchModeFrameProcessor.cpp:200-223 | With minDelta 0, every timestamp other than the last accepted one is accepted. |
| ResearchModeProcessing.InitialState | HL2RmStreamUnityPlugin/ResearchModeFrameProcessor.h:38 | A new processor has an empty slot, m_prevTimestamp 0 and nothing sent. |
| ResearchModeProcessing.StartStep | HL2RmStreamUnityPlugin/ResearchModeFrameProcessor.cpp:69-75 | Start is defined only when StartTerminates does not hold, that is, when no thread of an earlier Start is still joinable; otherwise the thread assignment calls std::terminate. It clears the exit flag, starts both threads (the acquisition thread waits for consent) and sets isRunning; slot, timestamp and sent frames are unchanged. |
| ResearchModeProcessing.StopStep | HL2RmStreamUnityPlugin/ResearchModeFrameProcessor.cpp:51-67 | Stop sets the exit flag, ends both threads and clears isRunning; the slot keeps its frame. |
| ResearchModeProcessing.ConsentStep | HL2RmStreamUnityPlugin/ResearchModeFrameProcessor.cpp:86-134 | Defined unless ConsentDereferencesNull holds: consent with a sensor nulled by an earlier failed OpenStream makes OpenStream dereference null and end the process. Otherwise acquisition starts iff consent gives S_OK and OpenStream succeeds; a failed OpenStream nulls the sensor; outside the consent wait nothing changes. |
| ResearchModeProcessing.AcquireStep | HL2RmStreamUnityPlugin/ResearchModeFrameProcessor.cpp:140-165 | A frame from GetNextBuffer replaces the slot while acquiring; a failed call leaves it. |
| ResearchModeProcessing.ProcessStep | HL2RmStreamUnityPlugin/ResearchModeFrameProcessor.cpp:185-197 | Defined unless ProcessDereferencesNull holds: accepting a frame while the sensor is null makes GetSensorType dereference null and end the process. Otherwise a pass sends the slot's frame iff the processor runs, a sink exists, the slot is full and IsValidTimestamp accepts; its HostTicks then becomes m_prevTimestamp. |
| ResearchModeProcessing.ProcessStepIdempotent | HL2RmStreamUnityPlugin/ResearchModeFrameProcessor.cpp:185-223 | Without a new frame, a second pass sends nothing: no frame is forwarded twice. |
| ResearchModeProcessing.ZeroMinDeltaForwardsEveryNewTimestamp | HL2RmStreamUnityPlugin/ResearchModeFrameProcessor.cpp:185-223 | With minDelta 0, a running processor with a sensor sends the slot's frame whenever its HostTicks differs from the last accepted one. |
| ResearchModeProcessing.ProcessStepKeepsInv | HL2RmStreamUnityPlugin/ResearchModeFrameProcessor.cpp:185-223 | A processing pass preserves the invariant: sent timestamps strictly increase by at least minDelta, and the last one is m_prevTimestamp. |
| ResearchModeProcessing.ApplyKeepsInv | HL2RmStreamUnityPlugin/ResearchModeFrameProcessor.cpp:51-198 | Any single start, stop, consent, acquisition or processing step preserves the invariant, given that acquired frames do not go back in time. |
| ResearchModeProcessing.RunKeepsInv | HL2RmStreamUnityPlugin/ResearchModeFrameProcessor.cpp:51-198 | Any sequence of steps whose acquired HostTicks never decrease (PublishedNonDecreasing) keeps the sent timestamps strictly increasing and spaced by at least minDelta; a Start on a started processor, or a null-sensor dereference, ends the run. |
| ResearchModeProcessing.DoubleStartEndsRun | HL2RmStreamUnityPlugin/ResearchModeFrameProcessor.cpp:69-75 | Two Starts without a Stop between them end the run at the first Start's state: nothing is processed or sent afterwards. |
| ResearchModeProcessing.StaleFrameAfterFailedOpenEndsRun | HL2RmStreamUnityPlugin/ResearchModeFrameProcessor.cpp:121-197 | A frame acquired before a Stop stays in the slot; when the restarted thread's OpenStream fails, the next processing pass would dereference the null sensor, so the run ends there with nothing sent. |
| ResearchModeProcessing.SentTimestampsIncrease | HL2RmStreamUnityPlugin/ResearchModeFrameProcessor.cpp:140-223 | From a new processor, if acquired HostTicks never decrease, the frames sent have strictly increasing HostTicks, each at least minDelta after the previous one, and the first at least minDelta after 0. |
| ResearchModeProcessing.ScenarioMinDelta100 | HL2RmStreamUnityPlugin/ResearchModeFrameProcessor.cpp:200-223 | With minDelta 100, HostTicks 100, 100, 250, 400 send 100, 250 and 400; the repeated 100 is dropped. |
| ResearchModeProcessing.ResearchModeFrameProcessor.constructor | HL2RmStreamUnityPlugin/ResearchModeFrameProcessor.cpp:9-49 | A new processor is in the initial state, with the given minDelta. |
| ResearchModeProcessing.ResearchModeFrameProcessor.Start | HL2RmStreamUnityPlugin/ResearchModeFrameProcessor.cpp:69-75 | On a processor whose threads are not joinable, the new state is StartStep of the old one. |
| ResearchModeProcessing.ResearchModeFrameProcessor.Stop | HL2RmStreamUnityPlugin/ResearchModeFrameProcessor.cpp:51-67 | The new state is StopStep of the old one. |
| ResearchModeProcessing.ResearchModeFrameProcessor.AwaitConsentAndOpen | HL2RmStreamUnityPlugin/ResearchModeFrameProcessor.cpp:86-134 | On a thread waiting for consent whose sensor is present or which gets no consent, it returns ConsentResult, and the new state is ConsentStep of the old one. |
| ResearchModeProcessing.ResearchModeFrameProcessor.AcquisitionStep | HL2RmStreamUnityPlugin/ResearchModeFrameProcessor.cpp:140-174 | The new state is AcquireStep of the old one. |
| ResearchModeProcessing.ResearchModeFrameProcessor.IsValidTimestamp | HL2RmStreamUnityPlugin/ResearchModeFrameProcessor.cpp:200-223 | It returns true iff the frame is present and Accepts holds, and then only it updates m_prevTimestamp, to the frame's HostTicks. |
| ResearchModeProcessing.ResearchModeFrameProcessor.ProcessingStep | HL2RmStreamUnityPlugin/ResearchModeFrameProcessor.cpp:185-197 | Unless the pass would accept a frame with a null sensor, the new state is ProcessStep of the old one. |
| VideoProcessing.AcceptsOnlyLater | HL2RmStreamUnityPlugin/VideoCameraFrameProcessor.cpp:177-180 | With minDelta >= 0, the signed filter accepts exactly the timestamps more than minDelta after the last sent one. |
| VideoProcessing.InitialState | HL2RmStreamUnityPlugin/VideoCameraFrameProcessor.h:41 | A new processor has an empty slot, m_latestTimestamp 0, nothing sent and no handler. |
| VideoProcessing.StartStep | HL2RmStreamUnityPlugin/VideoCameraFrameProcessor.cpp:110-131 | StartAsync is defined unless the reader starts while the thread of an earlier StartAsync is still joinable, where the thread assignment calls std::terminate. It clears the exit flag. Only when the reader starts does it spawn the thread, register the handler and set isRunning. |
| VideoProcessing.StopStep | HL2RmStreamUnityPlugin/VideoCameraFrameProcessor.cpp:133-148 | Stop sets the exit flag, joins the thread, revokes the handler, empties the slot and clears isRunning; m_latestTimestamp is kept. |
| VideoProcessing.FrameArrivedStep | HL2RmStreamUnityPlugin/VideoCameraFrameProcessor.cpp:150-162 | A frame from TryAcquireLatestFrame replaces the slot; a null one leaves it. |
| VideoProcessing.ProcessStep | HL2RmStreamUnityPlugin/VideoCameraFrameProcessor.cpp:164-188 | A pass sends the slot's frame with its absolute timestamp iff the filter accepts, and that timestamp becomes m_latestTimestamp. |
| VideoProcessing.ProcessStepIdempotent | HL2RmStreamUnityPlugin/VideoCameraFrameProcessor.cpp:169-187 | Without a new frame, a second pass sends nothing. |
| VideoProcessing.ProcessStepKeepsInv | HL2RmStreamUnityPlugin/VideoCameraFrameProcessor.cpp:169-187 | A pass preserves the invariant: consecutive sent timestamps are more than minDelta apart, and the last is m_latestTimestamp. |
| VideoProcessing.RunKeepsInv | HL2RmStreamUnityPlugin/VideoCameraFrameProcessor.cpp:110-188 | Any sequence of start, stop, frame-arrival and processing steps preserves the invariant; a StartAsync that terminates the process ends the run. |
| VideoProcessing.DoubleStartEndsRun | HL2RmStreamUnityPlugin/VideoCameraFrameProcessor.cpp:110-131 | Two successful StartAsync calls without a Stop between them end the run at the first one's state. |
| VideoProcessing.SentTimestampsIncrease | HL2RmStreamUnityPlugin/VideoCameraFrameProcessor.cpp:164-188 | Whatever the order of steps and the converter's timestamps, sent timestamps are spaced by more than minDelta, the first more than minDelta after 0; with minDelta >= 0 they strictly increase. |
| VideoProcessing.StrictlyIncreasingSteps | HL2RmStreamUnityPlugin/VideoCameraFrameProcessor.cpp:177-183 | Pairwise increase follows from increase between neighbours. |
| VideoProcessing.VideoCameraFrameProcessor.constructor | HL2RmStreamUnityPlugin/VideoCameraFrameProcessor.cpp:17-19 | After InitializeAsync has stored the sink and minDelta, the processor is in the initial state. |
| VideoProcessing.VideoCameraFrameProcessor.StartAsync | HL2RmStreamUnityPlugin/VideoCameraFrameProcessor.cpp:110-131 | Unless the start would terminate the process, the new state is StartStep of the old one. |
| VideoProcessing.VideoCameraFrameProcessor.Stop | HL2RmStreamUnityPlugin/VideoCameraFrameProcessor.cpp:133-148 | The new state is StopStep of the old one. |
| VideoProcessing.VideoCameraFrameProcessor.OnFrameArrived | HL2RmStreamUnityPlugin/VideoCameraFrameProcessor.cpp:150-162 | The new state is FrameArrivedStep of the old one. |
| VideoProcessing.VideoCameraFrameProcessor.ProcessingStep | HL2RmStreamUnityPlugin/VideoCameraFrameProcessor.cpp:169-187 | The new state is ProcessStep of the old one. |
| VideoSelection.FindImageWidth | HL2RmStreamUnityPlugin/VideoCameraFrameProcessor.cpp:38-53 | Returns the first index whose width is kImageWidth (640), or none iff there is no such index. |
| VideoSelection.SelectProfile | HL2RmStreamUnityPlugin/VideoCameraFrameProcessor.cpp:30-57 | None iff no profile of any group has a 640-wide description. Otherwise the choice is the first such description of a matching profile, and no later group/profile pair matches: the last match wins. |
| VideoSelection.ColorSources | HL2RmStreamUnityPlugin/VideoCameraFrameProcessor.cpp:59-67 | The kept sources are exactly the Color ones, and never more than the input. |
| VideoSelection.ColorSourcesSingleton | HL2RmStreamUnityPlugin/VideoCameraFrameProcessor.cpp:63-66 | A single info is kept iff its kind is Color. |
| VideoSelection.ColorSourcesAppend | HL2RmStreamUnityPlugin/VideoCameraFrameProcessor.cpp:59-67 | Filtering a concatenation is the concatenation of the filtered parts, so the Color sources keep their original order and multiplicity. |
| VideoSelection.SelectColorSources | HL2RmStreamUnityPlugin/VideoCameraFrameProcessor.cpp:59-67 | The loop keeps the Color source infos in order. |
| VideoSelection.SelectFormat | HL2RmStreamUnityPlugin/VideoCameraFrameProcessor.cpp:86-100 | None iff no kept source has a 640-wide format. Otherwise it picks the first such format of the last source that has one. |
| VideoSelection.InitializeAsync | HL2RmStreamUnityPlugin/VideoCameraFrameProcessor.cpp:10-103 | It fails with NoProfileOfImageWidth iff no profile matches; with NoColorSource iff the chosen profile's group has no Color source; with NoFormatOfImageWidth iff its Color sources exist but none has a 640-wide format; and it succeeds iff some Color source of the chosen group has one. On success the profile is the one the loops choose, the Color sources are those of its group, and the format is the first 640-wide format of the last source that has one. |
| VideoSelection.ChosenProfileUnique | HL2RmStreamUnityPlugin/VideoCameraFrameProcessor.cpp:30-57 | At most one group/profile/description choice is a first 640-wide description with no later matching profile, so the loops' choice is determined. |
| VideoSelection.SourceFormats | HL2RmStreamUnityPlugin/VideoCameraFrameProcessor.cpp:86-90 | The i-th entry is the supported formats of the i-th kept source, looked up by its id. |
| SimpleClient.Repeat | py/hololens2_simpleclient.py:16 | A repeat count in a format string stands for that many copies of the code. |
| SimpleClient.WordsSize | py/hololens2_simpleclient.py:59 | A format of only 4-byte codes has calcsize 4 per field. |
| SimpleClient.HeaderOffsets | py/hololens2_simpleclient.py:59 | In 'q' followed by 4-byte fields, field 0 is at 0, field k at 4k+4, each aligned to its size (so native '@' alignment adds no padding), and calcsize is 4n+4. |
| SimpleClient.HeaderFormatSizes | py/hololens2_simpleclient.py:16-27 | "@qIIII16f" has 21 fields and 88 bytes; "@qIIII18f" has 23 fields and 96 bytes. |
| SimpleClient.Signed64 | py/hololens2_simpleclient.py:76 | 'q' reads a 64-bit pattern as the signed value congruent to it modulo 2^64. |
| SimpleClient.UnpackFieldAt | py/hololens2_simpleclient.py:76 | struct.unpack's field k decodes the bytes at the field's offset. |
| SimpleClient.Unpack | py/hololens2_simpleclient.py:76 | struct.unpack succeeds iff the buffer is exactly calcsize bytes, and then yields one value per field. |
| SimpleClient.Recv | py/hololens2_simpleclient.py:88 | recv returns a non-empty prefix of what is left, of at most bufsize bytes, and b'' only when the server has closed and everything was read. |
| SimpleClient.RecvAll | py/hololens2_simpleclient.py:85-92 | When the server sends at least size bytes, recvall as written returns exactly the first size bytes. |
| SimpleClient.RecvAllSpinsAfterEarlyClose | py/hololens2_simpleclient.py:87-91 | When the server closes early, a pass of recvall as written leaves msg unchanged and still short, so the loop never ends. |
| SimpleClient.RecvAllUntilClosed | py/hololens2_simpleclient.py:85-92 | recvall with the intended close check returns the first min(size, sent) bytes. |
| SimpleClient.FrameFromStream | py/hololens2_simpleclient.py:68-83 | It returns None iff nothing arrives, and a struct error iff the header is short. Otherwise it returns the unpacked header and the next ImageHeight*RowStride bytes, or fewer if the server closed. |
| SimpleClient.ReceiveFrame | py/hololens2_simpleclient.py:68-83 | The reading loop returns what FrameFromStream describes and consumes exactly the header and image bytes. |
| SimpleClient.VideoCell | py/hololens2_simpleclient.py:121-123 | Cell (r, c) of an (H, W, D) uint8 reshape holds bytes (rW+c)D to (rW+c)D+D-1. |
| SimpleClient.ReshapeVideo | py/hololens2_simpleclient.py:121-123 | The (H, W, PixelStride) reshape succeeds iff the byte count is H*W*PixelStride, and each cell is the matching slice. |
| SimpleClient.DepthCell | py/hololens2_simpleclient.py:138-139 | Cell (r, c) of an (H, W) uint16 reshape is the little-endian word at byte 2(rW+c). |
| SimpleClient.ReshapeDepth | py/hololens2_simpleclient.py:138-139 | The (H, W) uint16 reshape succeeds iff the byte count is 2HW, and each cell is the native word. |
| SimpleClient.TransposedRow | py/hololens2_simpleclient.py:126 | Row i of the transposed 4x4 reshape is column i of the row-major values. |
| SimpleClient.MatFromHeader | py/hololens2_simpleclient.py:125-127 | The slice-reshape-transpose succeeds iff the clamped slice holds 16 values, and then entry (i, j) is slice value 4j+i. |
| SimpleClient.HeaderFormat | py/hololens2_simpleclient.py:113-133 | Each receiver's format has unsigned width, height, pixel-stride and row-stride fields. |
| SimpleClient.ImageFromPayload | py/hololens2_simpleclient.py:118-139 | listen's reshape succeeds iff the payload has H*W*PixelStride bytes (video) or H*W*2 bytes (depth). |
| SimpleClient.TransformFromHeader | py/hololens2_simpleclient.py:125-143 | header[7:24] (video) or header[5:22] (depth) of a full header always reshapes to a 4x4 matrix. |
| SimpleClient.FrameReceiver.constructor | py/hololens2_simpleclient.py:57-66 | A receiver starts with no latest header and no latest frame. |
| SimpleClient.FrameReceiver.ListenStep | py/hololens2_simpleclient.py:118-139 | When a frame is received, latest_header is set and the stream advances past it; latest_frame is set iff the reshape succeeds, and a failed reshape ends the loop. When nothing is received, the loop ends with nothing updated. |
| RoundTrip.Floats | py/hololens2_simpleclient.py:27 | One float field per matrix word, in order. |
| RoundTrip.DepthHeaderFields | HL2RmStreamUnityPlugin/ResearchModeFrameStreamer.cpp:194-200 | The expected depth header tuple has 21 fields, with the frame's width and height as unsigned fields. |
| RoundTrip.VideoHeaderFields | HL2RmStreamUnityPlugin/VideoCameraStreamer.cpp:195-203 | The expected video header tuple has 23 fields, with the width, the height and pixel stride 3. |
| RoundTrip.MatrixFieldsAt | py/hololens2_simpleclient.py:27 | The 16 'f' fields after the scalar fields unpack to the matrix words in the order WriteMatrix4x4 wrote them. |
| RoundTrip.FormatCodes | py/hololens2_simpleclient.py:16-27 | Both formats are 'q', four 'I' and then only 'f'. |
| RoundTrip.DepthScalarFields | HL2RmStreamUnityPlugin/ResearchModeFrameStreamer.cpp:194-198 | The five scalar depth header fields unpack to timestamp, width, height, pixel stride and 32-bit row stride. |
| RoundTrip.DepthHeaderRoundTrip | HL2RmStreamUnityPlugin/ResearchModeFrameStreamer.cpp:194-200 | Under "@qIIII16f", the server's depth header unpacks to the timestamp, the resolution, the 32-bit row stride and the rig-to-world words, for timestamps below 2^63. |
| RoundTrip.VideoScalarFields | HL2RmStreamUnityPlugin/VideoCameraStreamer.cpp:195-201 | The seven scalar video header fields unpack to timestamp, width, height, 3, 3*width mod 2^32, fx and fy. |
| RoundTrip.VideoHeaderRoundTrip | HL2RmStreamUnityPlugin/VideoCameraStreamer.cpp:195-203 | Under "@qIIII18f", the server's video header unpacks to its fields and the camera-to-world words. |
| RoundTrip.ReceiveWholeMessage | py/hololens2_simpleclient.py:68-83 | On a stream that starts with a whole message whose ImageHeight*RowStride is the payload size, get_data_from_socket returns the header and exactly the payload. |
| RoundTrip.DepthFrameReceived | HL2RmStreamUnityPlugin/ResearchModeFrameStreamer.cpp:194-202 | The client receives from a depth message its header tuple and exactly the packed samples. |
| RoundTrip.DecodeBE16s | HL2RmStreamUnityPlugin/ResearchModeFrameStreamer.cpp:177-178 | Decoding pairs of bytes high-first gives half as many samples. |
| RoundTrip.ClampAll | HL2RmStreamUnityPlugin/ResearchModeFrameStreamer.cpp:164-176 | Each sample after the 4090 clamp. |
| RoundTrip.DepthPayloadDecodes | HL2RmStreamUnityPlugin/ResearchModeFrameStreamer.cpp:164-179 | Read two bytes at a time, high byte first, the packed payload is the clamped samples. |
| RoundTrip.DepthCellSwapped | py/hololens2_simpleclient.py:138-139 | Cell (r, c) of the client's uint16 reshape is clamped sample rW+c with its bytes swapped. |
| RoundTrip.SwappedDepth | py/hololens2_simpleclient.py:138-139 | The reference depth image: H rows of W byte-swapped clamped samples. |
| RoundTrip.DepthImageOfPayload | py/hololens2_simpleclient.py:138-139 | The client's reshape of a packed payload is the byte-swapped reference image. |
| RoundTrip.DepthFrameRoundTrip | py/hololens2_simpleclient.py:135-139 | For a depth message, get_data_from_socket returns the header and exactly the packed samples. Read big-endian these are the clamped samples; listen's native uint16 reshape gives them byte-swapped, row by row. |
| RoundTrip.VideoCellStripped | py/hololens2_simpleclient.py:121-123 | Byte j of cell (r, c) of the client's reshape is byte j of bitmap pixel rW+c. |
| RoundTrip.VideoFrameReceived | HL2RmStreamUnityPlugin/VideoCameraStreamer.cpp:195-205 | The client receives from a video message its header tuple and exactly the stripped pixels. |
| RoundTrip.Colour | HL2RmStreamUnityPlugin/VideoCameraStreamer.cpp:174-178 | The blue, green and red bytes of a Bgra8 pixel. |
| RoundTrip.ColourImage | HL2RmStreamUnityPlugin/VideoCameraStreamer.cpp:169-180 | The reference colour image: H rows of W pixels without alpha. |
| RoundTrip.VideoImageOfPayload | py/hololens2_simpleclient.py:121-123 | The client's (H, W, 3) reshape of the stripped pixels is the reference colour image. |
| RoundTrip.VideoFrameRoundTrip | py/hololens2_simpleclient.py:118-123 | For a video message, get_data_from_socket returns the header and exactly the stripped pixels, and listen's image holds at (r, c) the blue, green and red bytes of bitmap pixel (r, c). |
| RoundTrip.TransformIsTransposed | py/hololens2_simpleclient.py:125-127 | get_mat_from_header on a decoded header returns the transpose of the matrix the server wrote row by row. |

## Left out

- Threads, the frame mutexes and `std::thread` joins are not modelled as
  interleavings. Each loop body, handler call, Start and Stop is one atomic
  step. The mutex serialises the two loop bodies; Start and Stop run from the
  owner's thread.
- The blocking consent wait is one step. Stop joining a thread still blocked
  on it is not modelled.
- Floats are opaque 32-bit words. The arithmetic that builds the rig-to-world
  matrix from the located pose (quaternion times translation) is left out,
  and the located matrix is a parameter.
- Platform services are parameters:
  - the SpatialLocator and TryGetTransformTo results;
  - the PerceptionTimestampHelper/TimeConverter conversion, a function or the
    absolute timestamp;
  - the DataWriter's StoreAsync outcome, given as Stored or Failed(status);
  - GetNextBuffer and TryAcquireLatestFrame, given as optional frames.
- `winrt::check_hresult` and `check_bool` throws that are not part of a
  modelled branch are not modelled (GetTimeStamp, GetBuffer, OpenStream's
  later calls). Neither is the throw of `checkAndConvertUnsigned` on the
  frame's HostTicks in ResearchModeFrameStreamer::Send
  (ResearchModeFrameStreamer.cpp:119) and Streamer::Send (Streamer.cpp:107),
  whose definition is not part of this model; the converted timestamp is a
  parameter.
- VideoStreaming.VideoCameraStreamer.Send: the caught GetBuffer failure, which leaves
  `pixelBufferData` uninitialised, is not modelled. The model requires a
  complete bitmap buffer, because the repack loops read it unchecked.
- The `catch` in each OnConnectionReceived is left out: setting the socket
  and writer is modelled as never throwing.
- StartServer, the StreamSocketListener bind, the destructors and the
  plugin's HL2RmStreamUnityPlugin glue are not part of this model.
- AhatStreaming.Streamer.constructor: Streamer.h is not part of this model, so the
  initial value of `m_streamingEnabled` is a constructor parameter.
- VideoProcessing.Accepts: `long long` overflow of `timestamp -
  m_latestTimestamp` is not modelled. Timestamps are unbounded integers there.
- RoundTrip.DepthHeaderRoundTrip, RoundTrip.VideoHeaderRoundTrip and the
  frame round trips hold for timestamps below 2^63 and for strides that fit
  in 32 bits. They require that, since the client's 'q' and 'I' fields cannot
  hold more.
- RoundTrip.DepthFrameReceived and RoundTrip.DepthFrameRoundTrip also require
  a resolution of 2 bytes per pixel and exactly width*height samples, so that
  the client's payload size ImageHeight*RowStride equals the 2 bytes per
  sample the server sends. For other resolutions no round trip is stated.
- ResearchModeProcessing.StartStep and its Start method are not defined on
  a processor whose threads are still joinable, where std::terminate ends
  the process; Run stops there, and the teardown itself is not modelled.
- ResearchModeProcessing.ConsentStep and its AwaitConsentAndOpen method are
  not defined for consent with a null sensor, where OpenStream dereferences
  null and ends the process; Run stops there, and the crash itself is not
  modelled.
- ResearchModeProcessing.ProcessStep and its ProcessingStep method are not
  defined for a pass that accepts a frame while the sensor is null, where
  GetSensorType dereferences null and ends the process; Run stops there, and
  the crash itself is not modelled.
- VideoProcessing.StartStep and its StartAsync method are not defined when
  the reader starts while the processing thread is still joinable, where
  std::terminate ends the process; Run stops there, and the teardown itself
  is not modelled.
- SimpleClient.RecvAll: recvall as written is stated only for a server that
  sends at least size bytes (it never returns otherwise, see Findings). The
  rest of the client model reads with `SimpleClient.RecvAllUntilClosed`.
- Python sockets, `threading`, `print`, `cv2` display, `datetime` and the
  `__main__` loop are left out. The socket is the sequence of bytes still to
  come, and how many bytes each `recv` delivers is a parameter.
- VideoSelection.InitializeAsync: the `FrameSources().Lookup` of each kept
  source is a map that must contain it, as on the device. MediaCapture
  initialisation, SetFormatAsync and CreateFrameReaderAsync are left out.

Where the code differs from what its comments or names suggest, the model
follows the code:

- The reset-by-peer branches write `m_writer == nullptr;
  m_streamSocket == nullptr;`, which are comparisons, so the connection is
  kept.
- `m_writeInProgress` is cleared at the end of every Send, so between calls
  the in-flight guard never fires: each streamer's `Valid()` holds after
  construction and every connection, and every Send keeps it.
- The message is written to the DataWriter before `StoreAsync`, so a failed
  store has still handed it to the writer.
- `Streamer::Send` ignores the QueryInterface HRESULT.
- `m_minDelta` is a `long long` compared with an unsigned delta, so the depth
  filter's comparison is unsigned.
- With minDelta 100, HostTicks 100, 100, 250, 400 send 100, 250 and 400.

## Findings

| source | as written | input that shows it | evidently intended | confidence | as-written member | corrected member |
|---|---|---|---|---|---|---|
| py/hololens2_simpleclient.py:89-90 | `if part == '':` compares the `bytes` returned by `recv` with a `str`, which is never equal in Python 3, so the close check never fires | the server closes after sending 10 of the 88 header bytes: every later `recv` returns `b''`, `len(msg)` stays 10 < 88, and recvall loops forever | stop at end of stream (`if not part: break`) and return the bytes received | high, not executed | SimpleClient.RecvAll, SimpleClient.RecvAllSpinsAfterEarlyClose | SimpleClient.RecvAllUntilClosed |
