/** What the reference client makes of the messages the streamers write: the
    header tuple struct.unpack produces from the server's header bytes, the
    payload get_data_from_socket cuts out of the stream, the arrays listen
    reshapes it into, and the matrix get_mat_from_header returns. */
module RoundTrip {
  import opened WireBytes
  import opened Frames
  import opened DepthEncoding
  import opened VideoEncoding
  import opened SimpleClient
  import ResearchModeStreaming
  import VideoStreaming

  /** The float fields a sequence of float words unpacks to. */
  function Floats(ws: seq<FloatWord>): (r: seq<Field>)
    ensures |r| == |ws| && forall k :: 0 <= k < |ws| ==> r[k] == Float32(ws[k])
  {
    if ws == [] then [] else [Float32(ws[0])] + Floats(ws[1..])
  }

  /** The header tuple a depth header should unpack to: the timestamp, the
      resolution, the row stride width * bytesPerPixel as the server's
      32-bit product, and the 16 matrix entries in the order written. */
  function DepthHeaderFields(timestamp: int, res: Resolution, rig2world: Float4x4): (r: seq<Field>)
    ensures |r| == 21 && HasDimensions(r)
    ensures r[IMAGE_WIDTH_INDEX] == UInt32(res.width) && r[IMAGE_HEIGHT_INDEX] == UInt32(res.height)
  {
    [Int64(timestamp), UInt32(res.width), UInt32(res.height), UInt32(res.bytesPerPixel),
     UInt32((res.width * res.bytesPerPixel) % TWO_32)] + Floats(rig2world)
  }

  /** The header tuple a video header should unpack to: pixel stride 3, row
      stride 3 * width, fx, fy and the 16 matrix entries. */
  function VideoHeaderFields(timestamp: int, width: uint32, height: uint32, fx: FloatWord, fy: FloatWord,
                             pvToWorld: Float4x4): (r: seq<Field>)
    ensures |r| == 23 && HasDimensions(r)
    ensures r[IMAGE_WIDTH_INDEX] == UInt32(width) && r[IMAGE_HEIGHT_INDEX] == UInt32(height)
    ensures r[PIXEL_STRIDE_INDEX] == UInt32(3)
  {
    [Int64(timestamp), UInt32(width), UInt32(height), UInt32(3), UInt32((3 * width) % TWO_32),
     Float32(fx), Float32(fy)] + Floats(pvToWorld)
  }

  /** Field 0 of a header format is the eight bytes at 0. */
  lemma FirstFieldAt(fmt: Format, b: seq<byte>)
    requires TimestampThenWords(fmt) && |b| == CalcSize(fmt)
    ensures |b| >= 8 && UnpackFields(fmt, b)[0] == DecodeField(Int64Code, b[0 .. 8])
  {
    HeaderOffsets(fmt, 0);
    UnpackFieldAt(fmt, b, 0);
  }

  /** Field k >= 1 of a header format is the four bytes at 4k + 4. */
  lemma WordFieldAt(fmt: Format, b: seq<byte>, k: nat)
    requires TimestampThenWords(fmt) && |b| == CalcSize(fmt) && 1 <= k < |fmt|
    ensures 4 * k + 8 <= |b| && UnpackFields(fmt, b)[k] == DecodeField(fmt[k], b[4 * k + 4 .. 4 * k + 8])
  {
    HeaderOffsets(fmt, k);
    UnpackFieldAt(fmt, b, k);
  }

  /** A timestamp below 2^63 written as 8 little-endian bytes unpacks unchanged as field 0. */
  lemma TimestampField(fmt: Format, b: seq<byte>, timestamp: int)
    requires TimestampThenWords(fmt) && |b| == CalcSize(fmt) && |b| >= 8
    requires 0 <= timestamp < TWO_63 && FromLE64(b[0 .. 8]) == timestamp % TWO_64
    ensures UnpackFields(fmt, b)[0] == Int64(timestamp)
  {
    FirstFieldAt(fmt, b);
    TimestampMod(timestamp);
  }

  /** An 'I' field k holds the word at 4k + 4. */
  lemma UInt32Field(fmt: Format, b: seq<byte>, k: nat, x: uint32)
    requires TimestampThenWords(fmt) && |b| == CalcSize(fmt) && 1 <= k < |fmt| && fmt[k] == UInt32Code
    requires 4 * k + 8 <= |b| && FromLE32(b[4 * k + 4 .. 4 * k + 8]) == x
    ensures UnpackFields(fmt, b)[k] == UInt32(x)
  {
    WordFieldAt(fmt, b, k);
  }

  /** An 'f' field k holds the float word at 4k + 4. */
  lemma Float32Field(fmt: Format, b: seq<byte>, k: nat, x: FloatWord)
    requires TimestampThenWords(fmt) && |b| == CalcSize(fmt) && 1 <= k < |fmt| && fmt[k] == Float32Code
    requires 4 * k + 8 <= |b| && FromLE32(b[4 * k + 4 .. 4 * k + 8]) == x
    ensures UnpackFields(fmt, b)[k] == Float32(x)
  {
    WordFieldAt(fmt, b, k);
  }

  /** Word j of a matrix written at byte `base` reads back as entry j. */
  lemma MatrixWordAt(b: seq<byte>, base: nat, m: Float4x4, j: nat)
    requires base <= |b| && b[base..] == WriteMatrix4x4(m) && j < 16
    ensures base + 4 * j + 4 <= |b| && FromLE32(b[base + 4 * j .. base + 4 * j + 4]) == m[j]
  {
    assert b[base + 4 * j .. base + 4 * j + 4] == b[base..][4 * j .. 4 * j + 4];
    WriteWordsAt(m, j);
    LE32RoundTrip(m[j]);
  }

  /** The 16 matrix words at byte `base` of a header unpack to the matrix entries. */
  lemma MatrixFieldsAt(fmt: Format, b: seq<byte>, first: nat, m: Float4x4)
    requires TimestampThenWords(fmt) && |b| == CalcSize(fmt) && 1 <= first && first + 16 == |fmt|
    requires forall k :: first <= k < |fmt| ==> fmt[k] == Float32Code
    requires 4 * first + 4 <= |b| && b[4 * first + 4 ..] == WriteMatrix4x4(m)
    ensures forall k :: first <= k < |fmt| ==> UnpackFields(fmt, b)[k] == Float32(m[k - first])
  {
    forall k | first <= k < |fmt|
      ensures UnpackFields(fmt, b)[k] == Float32(m[k - first])
    {
      var j := k - first;
      MatrixWordAt(b, 4 * first + 4, m, j);
      assert 4 * first + 4 + 4 * j == 4 * k + 4;
      Float32Field(fmt, b, k, m[j]);
    }
  }

  /** The field codes of the two header formats: 'q', four 'I', then 'f'. */
  lemma FormatCodes()
    ensures |RM_STREAM_HEADER_FORMAT| == 21 && |VIDEO_STREAM_HEADER_FORMAT| == 23
    ensures RM_STREAM_HEADER_FORMAT[0] == Int64Code && VIDEO_STREAM_HEADER_FORMAT[0] == Int64Code
    ensures forall k :: 1 <= k < 5 ==> RM_STREAM_HEADER_FORMAT[k] == UInt32Code
    ensures forall k :: 1 <= k < 5 ==> VIDEO_STREAM_HEADER_FORMAT[k] == UInt32Code
    ensures forall k :: 5 <= k < 21 ==> RM_STREAM_HEADER_FORMAT[k] == Float32Code
    ensures forall k :: 5 <= k < 23 ==> VIDEO_STREAM_HEADER_FORMAT[k] == Float32Code
  {
    var words := Repeat(UInt32Code, 4);
    forall k | 1 <= k < 5
      ensures RM_STREAM_HEADER_FORMAT[k] == UInt32Code && VIDEO_STREAM_HEADER_FORMAT[k] == UInt32Code
    {
      assert RM_STREAM_HEADER_FORMAT[k] == words[k - 1];
      assert VIDEO_STREAM_HEADER_FORMAT[k] == words[k - 1];
    }
    forall k | 5 <= k < 21
      ensures RM_STREAM_HEADER_FORMAT[k] == Float32Code
    {
      assert RM_STREAM_HEADER_FORMAT[k] == Repeat(Float32Code, 16)[k - 5];
    }
    forall k | 5 <= k < 23
      ensures VIDEO_STREAM_HEADER_FORMAT[k] == Float32Code
    {
      assert VIDEO_STREAM_HEADER_FORMAT[k] == Repeat(Float32Code, 18)[k - 5];
    }
  }

  /** The row-major position of (row, c) in rows of w elements. */
  function RowMajor(w: nat, row: nat, c: nat): nat
  {
    row * w + c
  }

  lemma WordMod(x: int)
    requires 0 <= x < TWO_32
    ensures x % TWO_32 == x
  {
  }

  lemma TimestampMod(timestamp: int)
    requires 0 <= timestamp < TWO_63
    ensures timestamp % TWO_64 == timestamp
  {
  }

  lemma SliceOfPrefix(s: seq<byte>, n: nat, i: nat, j: nat)
    requires i <= j <= n <= |s|
    ensures s[..n][i .. j] == s[i .. j]
  {
  }

  /** Two header tuples agree when their first n fields agree one by one
      (n is 5 or 7) and both continue with the same 16 float words. */
  lemma SameFields(u: seq<Field>, e: seq<Field>, n: nat, m: Float4x4)
    requires n == 5 || n == 7
    requires |u| == |e| == n + 16 && e[n..] == Floats(m)
    requires u[0] == e[0] && u[1] == e[1] && u[2] == e[2] && u[3] == e[3] && u[4] == e[4]
    requires n == 7 ==> u[5] == e[5] && u[6] == e[6]
    requires forall k :: n <= k < |u| ==> u[k] == Float32(m[k - n])
    ensures u == e
  {
    forall k | 0 <= k < |u|
      ensures u[k] == e[k]
    {
      if k >= n {
        assert e[k] == e[n..][k - n];
      }
    }
  }

  /** Header bytes laid out as the depth header unpack to its fields. */
  lemma DepthHeaderFromBytes(b: seq<byte>, timestamp: int, res: Resolution, rig2world: Float4x4)
    requires |b| == DEPTH_HEADER_SIZE && 0 <= timestamp < TWO_63
    requires FromLE64(b[0 .. 8]) == timestamp % TWO_64
    requires FromLE32(b[8 .. 12]) == res.width && FromLE32(b[12 .. 16]) == res.height
    requires FromLE32(b[16 .. 20]) == res.bytesPerPixel
    requires FromLE32(b[20 .. 24]) == (res.width * res.bytesPerPixel) % TWO_32
    requires b[24..] == WriteMatrix4x4(rig2world)
    ensures Unpack(RM_STREAM_HEADER_FORMAT, b) == Some(DepthHeaderFields(timestamp, res, rig2world))
  {
    var fmt := RM_STREAM_HEADER_FORMAT;
    HeaderFormatSizes();
    FormatCodes();
    DepthScalarFields(b, timestamp, res);
    MatrixFieldsAt(fmt, b, 5, rig2world);
    DepthFieldsOf(UnpackFields(fmt, b), timestamp, res, rig2world);
  }

  /** Fields that agree one by one with the depth header's are its fields. */
  lemma DepthFieldsOf(u: seq<Field>, timestamp: int, res: Resolution, rig2world: Float4x4)
    requires |u| == 21
    requires u[0] == Int64(timestamp) && u[1] == UInt32(res.width) && u[2] == UInt32(res.height)
    requires u[3] == UInt32(res.bytesPerPixel) && u[4] == UInt32((res.width * res.bytesPerPixel) % TWO_32)
    requires forall k :: 5 <= k < 21 ==> u[k] == Float32(rig2world[k - 5])
    ensures u == DepthHeaderFields(timestamp, res, rig2world)
  {
    var e := DepthHeaderFields(timestamp, res, rig2world);
    assert e[5..] == Floats(rig2world);
    SameFields(u, e, 5, rig2world);
  }

  /** The five fields before the matrix of a depth header. */
  lemma DepthScalarFields(b: seq<byte>, timestamp: int, res: Resolution)
    requires |b| == DEPTH_HEADER_SIZE && 0 <= timestamp < TWO_63
    requires FromLE64(b[0 .. 8]) == timestamp % TWO_64
    requires FromLE32(b[8 .. 12]) == res.width && FromLE32(b[12 .. 16]) == res.height
    requires FromLE32(b[16 .. 20]) == res.bytesPerPixel
    requires FromLE32(b[20 .. 24]) == (res.width * res.bytesPerPixel) % TWO_32
    ensures |b| == CalcSize(RM_STREAM_HEADER_FORMAT)
    ensures var u := UnpackFields(RM_STREAM_HEADER_FORMAT, b);
      && u[0] == Int64(timestamp) && u[1] == UInt32(res.width) && u[2] == UInt32(res.height)
      && u[3] == UInt32(res.bytesPerPixel) && u[4] == UInt32((res.width * res.bytesPerPixel) % TWO_32)
  {
    var fmt := RM_STREAM_HEADER_FORMAT;
    HeaderFormatSizes();
    FormatCodes();
    TimestampField(fmt, b, timestamp);
    UInt32Field(fmt, b, 1, res.width);
    UInt32Field(fmt, b, 2, res.height);
    UInt32Field(fmt, b, 3, res.bytesPerPixel);
    UInt32Field(fmt, b, 4, (res.width * res.bytesPerPixel) % TWO_32);
  }

  /** The same, for the first 88 bytes of a longer message. */
  lemma DepthHeaderFromPrefix(msg: seq<byte>, timestamp: int, res: Resolution, rig2world: Float4x4)
    requires |msg| >= DEPTH_HEADER_SIZE && 0 <= timestamp < TWO_63
    requires FromLE64(msg[0 .. 8]) == timestamp % TWO_64
    requires FromLE32(msg[8 .. 12]) == res.width && FromLE32(msg[12 .. 16]) == res.height
    requires FromLE32(msg[16 .. 20]) == res.bytesPerPixel
    requires FromLE32(msg[20 .. 24]) == (res.width * res.bytesPerPixel) % TWO_32
    requires msg[24 .. 88] == WriteMatrix4x4(rig2world)
    ensures Unpack(RM_STREAM_HEADER_FORMAT, msg[..DEPTH_HEADER_SIZE]) == Some(DepthHeaderFields(timestamp, res, rig2world))
  {
    var b := msg[..DEPTH_HEADER_SIZE];
    SliceOfPrefix(msg, 88, 0, 8);
    SliceOfPrefix(msg, 88, 8, 12);
    SliceOfPrefix(msg, 88, 12, 16);
    SliceOfPrefix(msg, 88, 16, 20);
    SliceOfPrefix(msg, 88, 20, 24);
    SliceOfPrefix(msg, 88, 24, 88);
    assert b[24..] == b[24 .. 88];
    DepthHeaderFromBytes(b, timestamp, res, rig2world);
  }

  /** The depth header both research-mode streamers write unpacks, under
      "@qIIII16f", to the timestamp, the resolution, the 32-bit row stride and
      the rig-to-world entries in write order. */
  lemma DepthHeaderRoundTrip(timestamp: int, res: Resolution, rig2world: Float4x4, payload: seq<byte>)
    requires 0 <= timestamp < TWO_63
    ensures var msg := DepthMessage(timestamp, res.width, res.height, res.bytesPerPixel, rig2world, payload);
      Unpack(RM_STREAM_HEADER_FORMAT, msg[..DEPTH_HEADER_SIZE]) == Some(DepthHeaderFields(timestamp, res, rig2world))
  {
    var msg := DepthMessage(timestamp, res.width, res.height, res.bytesPerPixel, rig2world, payload);
    DepthMessageLayout(timestamp, res.width, res.height, res.bytesPerPixel, rig2world, payload);
    WordMod(res.width);
    WordMod(res.height);
    WordMod(res.bytesPerPixel);
    DepthHeaderFromPrefix(msg, timestamp, res, rig2world);
  }

  /** Header bytes laid out as the video header unpack to its fields. */
  lemma VideoHeaderFromBytes(b: seq<byte>, timestamp: int, width: uint32, height: uint32, fx: FloatWord,
                             fy: FloatWord, pvToWorld: Float4x4)
    requires |b| == VIDEO_HEADER_SIZE && 0 <= timestamp < TWO_63
    requires FromLE64(b[0 .. 8]) == timestamp % TWO_64
    requires FromLE32(b[8 .. 12]) == width && FromLE32(b[12 .. 16]) == height
    requires FromLE32(b[16 .. 20]) == 3 && FromLE32(b[20 .. 24]) == (3 * width) % TWO_32
    requires FromLE32(b[24 .. 28]) == fx && FromLE32(b[28 .. 32]) == fy
    requires b[32..] == WriteMatrix4x4(pvToWorld)
    ensures Unpack(VIDEO_STREAM_HEADER_FORMAT, b) == Some(VideoHeaderFields(timestamp, width, height, fx, fy, pvToWorld))
  {
    var fmt := VIDEO_STREAM_HEADER_FORMAT;
    HeaderFormatSizes();
    FormatCodes();
    VideoScalarFields(b, timestamp, width, height, fx, fy);
    MatrixFieldsAt(fmt, b, 7, pvToWorld);
    VideoFieldsOf(UnpackFields(fmt, b), timestamp, width, height, fx, fy, pvToWorld);
  }

  /** Fields that agree one by one with the video header's are its fields. */
  lemma VideoFieldsOf(u: seq<Field>, timestamp: int, width: uint32, height: uint32, fx: FloatWord, fy: FloatWord,
                      pvToWorld: Float4x4)
    requires |u| == 23
    requires u[0] == Int64(timestamp) && u[1] == UInt32(width) && u[2] == UInt32(height) && u[3] == UInt32(3)
    requires u[4] == UInt32((3 * width) % TWO_32) && u[5] == Float32(fx) && u[6] == Float32(fy)
    requires forall k :: 7 <= k < 23 ==> u[k] == Float32(pvToWorld[k - 7])
    ensures u == VideoHeaderFields(timestamp, width, height, fx, fy, pvToWorld)
  {
    var e := VideoHeaderFields(timestamp, width, height, fx, fy, pvToWorld);
    assert e[7..] == Floats(pvToWorld);
    SameFields(u, e, 7, pvToWorld);
  }

  /** The seven fields before the matrix of a video header. */
  lemma VideoScalarFields(b: seq<byte>, timestamp: int, width: uint32, height: uint32, fx: FloatWord, fy: FloatWord)
    requires |b| == VIDEO_HEADER_SIZE && 0 <= timestamp < TWO_63
    requires FromLE64(b[0 .. 8]) == timestamp % TWO_64
    requires FromLE32(b[8 .. 12]) == width && FromLE32(b[12 .. 16]) == height
    requires FromLE32(b[16 .. 20]) == 3 && FromLE32(b[20 .. 24]) == (3 * width) % TWO_32
    requires FromLE32(b[24 .. 28]) == fx && FromLE32(b[28 .. 32]) == fy
    ensures |b| == CalcSize(VIDEO_STREAM_HEADER_FORMAT)
    ensures var u := UnpackFields(VIDEO_STREAM_HEADER_FORMAT, b);
      && u[0] == Int64(timestamp) && u[1] == UInt32(width) && u[2] == UInt32(height) && u[3] == UInt32(3)
      && u[4] == UInt32((3 * width) % TWO_32) && u[5] == Float32(fx) && u[6] == Float32(fy)
  {
    var fmt := VIDEO_STREAM_HEADER_FORMAT;
    HeaderFormatSizes();
    FormatCodes();
    TimestampField(fmt, b, timestamp);
    UInt32Field(fmt, b, 1, width);
    UInt32Field(fmt, b, 2, height);
    UInt32Field(fmt, b, 3, 3);
    UInt32Field(fmt, b, 4, (3 * width) % TWO_32);
    Float32Field(fmt, b, 5, fx);
    Float32Field(fmt, b, 6, fy);
  }

  /** The same, for the first 96 bytes of a longer message. */
  lemma VideoHeaderFromPrefix(msg: seq<byte>, timestamp: int, width: uint32, height: uint32, fx: FloatWord,
                              fy: FloatWord, pvToWorld: Float4x4)
    requires |msg| >= VIDEO_HEADER_SIZE && 0 <= timestamp < TWO_63
    requires FromLE64(msg[0 .. 8]) == timestamp % TWO_64
    requires FromLE32(msg[8 .. 12]) == width && FromLE32(msg[12 .. 16]) == height
    requires FromLE32(msg[16 .. 20]) == 3 && FromLE32(msg[20 .. 24]) == (3 * width) % TWO_32
    requires FromLE32(msg[24 .. 28]) == fx && FromLE32(msg[28 .. 32]) == fy
    requires msg[32 .. 96] == WriteMatrix4x4(pvToWorld)
    ensures Unpack(VIDEO_STREAM_HEADER_FORMAT, msg[..VIDEO_HEADER_SIZE])
              == Some(VideoHeaderFields(timestamp, width, height, fx, fy, pvToWorld))
  {
    var b := msg[..VIDEO_HEADER_SIZE];
    SliceOfPrefix(msg, 96, 0, 8);
    SliceOfPrefix(msg, 96, 8, 12);
    SliceOfPrefix(msg, 96, 12, 16);
    SliceOfPrefix(msg, 96, 16, 20);
    SliceOfPrefix(msg, 96, 20, 24);
    SliceOfPrefix(msg, 96, 24, 28);
    SliceOfPrefix(msg, 96, 28, 32);
    SliceOfPrefix(msg, 96, 32, 96);
    assert b[32..] == b[32 .. 96];
    VideoHeaderFromBytes(b, timestamp, width, height, fx, fy, pvToWorld);
  }

  /** The video header unpacks, under "@qIIII18f", to the timestamp, the
      bitmap's size, pixel stride 3, row stride 3 * width, fx, fy and the
      camera-to-world entries in write order. */
  lemma VideoHeaderRoundTrip(timestamp: int, width: uint32, height: uint32, fx: FloatWord, fy: FloatWord,
                             pvToWorld: Float4x4, payload: seq<byte>)
    requires 0 <= timestamp < TWO_63
    ensures var msg := VideoMessage(timestamp, width, height, fx, fy, pvToWorld, payload);
      Unpack(VIDEO_STREAM_HEADER_FORMAT, msg[..VIDEO_HEADER_SIZE])
        == Some(VideoHeaderFields(timestamp, width, height, fx, fy, pvToWorld))
  {
    var msg := VideoMessage(timestamp, width, height, fx, fy, pvToWorld, payload);
    VideoMessageLayout(timestamp, width, height, fx, fy, pvToWorld, payload);
    WordMod(width);
    WordMod(height);
    VideoHeaderFromPrefix(msg, timestamp, width, height, fx, fy, pvToWorld);
  }

  /** get_data_from_socket on a stream that starts with a whole message:
      the header tuple, and exactly the payload when the header's
      ImageHeight * RowStride is its size. */
  lemma ReceiveWholeMessage(fmt: Format, msg: seq<byte>, more: seq<byte>, header: seq<Field>)
    requires IsHeaderFormat(fmt) && CalcSize(fmt) <= |msg|
    requires Unpack(fmt, msg[..CalcSize(fmt)]) == Some(header)
    requires CalcSize(fmt) > 0 && ImageSizeBytes(header) == |msg| - CalcSize(fmt)
    ensures FrameFromStream(fmt, msg + more) == Received(header, msg[CalcSize(fmt)..])
  {
    var stream := msg + more;
    assert stream[..CalcSize(fmt)] == msg[..CalcSize(fmt)];
    assert stream[CalcSize(fmt) .. |msg|] == msg[CalcSize(fmt)..];
  }

  lemma PayloadSize(h: nat, w: nat, d: nat)
    ensures h * (d * w) == d * (w * h) == h * w * d
  {
  }

  /** Cell (row, c) of the uint16 reading of packed samples is the clamped
      sample row * w + c with its bytes swapped: the server packs high byte
      first, the client reads native little-endian words. */
  lemma DepthCellSwapped(samples: seq<uint16>, h: nat, w: nat, row: nat, c: nat)
    requires |samples| == w * h && row < h && c < w
    ensures RowMajor(w, row, c) < |samples|
    ensures DepthCell(DepthPayload(samples), h, w, row, c) == Swap16(Clamp(samples[RowMajor(w, row, c)]))
  {
    var payload := DepthPayload(samples);
    PayloadSize(h, w, 2);
    var k := row * w + c;
    var v := DepthCell(payload, h, w, row, c);
    assert v == FromLE16(payload[2 * k .. 2 * k + 2]);
    DepthPayloadAt(samples, k);
    BE16ReadAsLE(Clamp(samples[k]));
  }

  /** The uint16 reshape of packed samples holds each clamped sample with its
      bytes swapped. */
  lemma DepthCellsSwapped(samples: seq<uint16>, h: nat, w: nat)
    requires |samples| == w * h
    ensures ReshapeDepth(DepthPayload(samples), h, w).Some?
    ensures |ReshapeDepth(DepthPayload(samples), h, w).value| == h
    ensures forall row, c :: 0 <= row < h && 0 <= c < w ==>
      RowMajor(w, row, c) < |samples| && |ReshapeDepth(DepthPayload(samples), h, w).value[row]| == w
      && ReshapeDepth(DepthPayload(samples), h, w).value[row][c] == Swap16(Clamp(samples[RowMajor(w, row, c)]))
  {
    var payload := DepthPayload(samples);
    PayloadSize(h, w, 2);
    var d := ReshapeDepth(payload, h, w);
    forall row, c | 0 <= row < h && 0 <= c < w
      ensures RowMajor(w, row, c) < |samples| && |d.value[row]| == w
      ensures d.value[row][c] == Swap16(Clamp(samples[RowMajor(w, row, c)]))
    {
      DepthCellSwapped(samples, h, w, row, c);
    }
  }

  /** get_data_from_socket on a depth message: the header tuple and exactly
      the packed samples, when the header's ImageHeight * RowStride is their size. */
  lemma DepthFrameReceived(frame: SensorFrame, rig2world: Float4x4, timestamp: int, more: seq<byte>)
    requires frame.depth.depthFrame.Some?
    requires 0 <= timestamp < TWO_63
    requires frame.resolution.bytesPerPixel == 2 && 2 * frame.resolution.width < TWO_32
    requires |frame.depth.depthFrame.value| == frame.resolution.width * frame.resolution.height
    ensures FrameFromStream(HeaderFormat(AhatReceiver),
                            ResearchModeStreaming.FrameMessage(frame, rig2world, timestamp) + more)
            == Received(DepthHeaderFields(timestamp, frame.resolution, rig2world),
                        DepthPayload(frame.depth.depthFrame.value))
  {
    var res := frame.resolution;
    var w, h := res.width as nat, res.height as nat;
    var payload := DepthPayload(frame.depth.depthFrame.value);
    var msg := ResearchModeStreaming.FrameMessage(frame, rig2world, timestamp);
    var header := DepthHeaderFields(timestamp, res, rig2world);
    HeaderFormatSizes();
    DepthHeaderRoundTrip(timestamp, res, rig2world, payload);
    WordMod(w * 2);
    PayloadSize(h, w, 2);
    assert ImageSizeBytes(header) == |payload|;
    assert msg[DEPTH_HEADER_SIZE..] == payload;
    ReceiveWholeMessage(HeaderFormat(AhatReceiver), msg, more, header);
  }

  /** The samples decoded two bytes at a time, high byte first, as the
      server packs them. */
  function DecodeBE16s(data: seq<byte>): (r: seq<uint16>)
    requires |data| % 2 == 0
    ensures |r| == |data| / 2
  {
    if data == [] then [] else DecodeBE16s(data[..|data| - 2]) + [FromBE16(data[|data| - 2..])]
  }

  /** Every sample after the invalidation clamp. */
  function ClampAll(samples: seq<uint16>): (r: seq<uint16>)
    ensures |r| == |samples| && forall k :: 0 <= k < |samples| ==> r[k] == Clamp(samples[k])
  {
    seq(|samples|, k requires 0 <= k < |samples| => Clamp(samples[k]))
  }

  /** Read big-endian, the depth payload gives back every sample, clamped:
      samples of 4090 or more come back as 0, the others unchanged. */
  lemma {:induction false} DepthPayloadDecodes(samples: seq<uint16>)
    ensures DecodeBE16s(DepthPayload(samples)) == ClampAll(samples)
  {
    if samples != [] {
      var n := |samples|;
      var init := samples[..n - 1];
      var payload := DepthPayload(samples);
      assert payload == DepthPayload(init) + BE16(Clamp(samples[n - 1]));
      assert payload[..|payload| - 2] == DepthPayload(init);
      assert payload[|payload| - 2..] == BE16(Clamp(samples[n - 1]));
      DepthPayloadDecodes(init);
      BE16RoundTrip(Clamp(samples[n - 1]));
      assert ClampAll(samples) == ClampAll(init) + [Clamp(samples[n - 1])];
    }
  }

  /** Sample (row, c) of a width-w frame, clamped, with its two bytes swapped:
      what a little-endian reader sees of the big-endian value the server wrote. */
  function SwappedSample(samples: seq<uint16>, h: nat, w: nat, row: nat, c: nat): (v: uint16)
    requires |samples| == w * h && row < h && c < w
    ensures RowMajor(w, row, c) < |samples|
  {
    RowBound(w, h, row, c);
    Swap16(Clamp(samples[RowMajor(w, row, c)]))
  }

  /** The h x w image of swapped samples, row-major. */
  function SwappedDepth(samples: seq<uint16>, h: nat, w: nat): (img: seq<seq<uint16>>)
    requires |samples| == w * h
    ensures |img| == h
    ensures forall row :: 0 <= row < h ==> |img[row]| == w
    ensures forall row, c :: 0 <= row < h && 0 <= c < w ==> img[row][c] == SwappedSample(samples, h, w, row, c)
  {
    seq(h, row requires 0 <= row < h =>
      seq(w, c requires 0 <= c < w => SwappedSample(samples, h, w, row, c)))
  }

  /** listen's AHAT reshape of packed samples, for any header whose
      dimensions are the frame's. */
  lemma DepthImageOfPayload(header: seq<Field>, samples: seq<uint16>, w: nat, h: nat)
    requires HasDimensions(header)
    requires header[IMAGE_HEIGHT_INDEX].u == h && header[IMAGE_WIDTH_INDEX].u == w
    requires |samples| == w * h
    ensures ImageFromPayload(AhatReceiver, header, DepthPayload(samples)) == Some(DepthImage(SwappedDepth(samples, h, w)))
  {
    DepthCellsSwapped(samples, h, w);
    var d := ReshapeDepth(DepthPayload(samples), h, w).value;
    var e := SwappedDepth(samples, h, w);
    forall row | 0 <= row < h
      ensures d[row] == e[row]
    {
      assert forall c :: 0 <= c < w ==> d[row][c] == e[row][c];
    }
    assert d == e;
  }

  /** A depth frame sent by either research-mode streamer, read by the AHAT
      receiver: get_data_from_socket returns the header tuple and exactly the
      packed samples; read big-endian they are the clamped samples, while
      listen's native uint16 reshape is the clamped samples byte-swapped, row
      by row. Holds when the frame has width * height samples of 2 bytes and
      the row stride fits in 32 bits. */
  lemma DepthFrameRoundTrip(frame: SensorFrame, rig2world: Float4x4, timestamp: int, more: seq<byte>)
    requires frame.depth.depthFrame.Some?
    requires 0 <= timestamp < TWO_63
    requires frame.resolution.bytesPerPixel == 2 && 2 * frame.resolution.width < TWO_32
    requires |frame.depth.depthFrame.value| == frame.resolution.width * frame.resolution.height
    ensures var samples := frame.depth.depthFrame.value;
      var r := FrameFromStream(HeaderFormat(AhatReceiver),
                               ResearchModeStreaming.FrameMessage(frame, rig2world, timestamp) + more);
      && r == Received(DepthHeaderFields(timestamp, frame.resolution, rig2world), DepthPayload(samples))
      && DecodeBE16s(r.imageData) == ClampAll(samples)
      && ImageFromPayload(AhatReceiver, r.header, r.imageData)
         == Some(DepthImage(SwappedDepth(samples, frame.resolution.height, frame.resolution.width)))
  {
    var res := frame.resolution;
    DepthFrameReceived(frame, rig2world, timestamp, more);
    DepthPayloadDecodes(frame.depth.depthFrame.value);
    var header := DepthHeaderFields(timestamp, res, rig2world);
    DepthImageOfPayload(header, frame.depth.depthFrame.value, res.width, res.height);
  }

  /** Byte j of cell (row, c) of the (h, w, 3) reading of stripped pixels
      is colour byte j of pixel (row, c) of the Bgra8 buffer. */
  lemma VideoCellStripped(data: seq<byte>, h: nat, w: nat, row: nat, c: nat, j: nat)
    requires |data| >= 4 * (w * h) && row < h && c < w && j < 3
    ensures |StripAlpha(data, w * h)| == h * w * 3
    ensures 4 * RowMajor(w, row, c) + 4 <= |data|
    ensures VideoCell(StripAlpha(data, w * h), h, w, 3, row, c)[j] == data[4 * RowMajor(w, row, c) + j]
  {
    var payload := StripAlpha(data, w * h);
    PayloadSize(h, w, 3);
    var k := RowMajor(w, row, c);
    assert VideoCell(payload, h, w, 3, row, c)[j] == payload[k * 3 + j];
    assert k * 3 == 3 * k;
    StripAlphaAt(data, w, h, row, c, j);
    RowBound(w, h, row, c);
  }

  /** The (h, w, 3) reshape of stripped pixels holds at (row, c, j) colour
      byte j of pixel (row, c) of the Bgra8 buffer. */
  lemma VideoCellsStripped(data: seq<byte>, h: nat, w: nat)
    requires |data| >= 4 * (w * h)
    ensures ReshapeVideo(StripAlpha(data, w * h), h, w, 3).Some?
    ensures |ReshapeVideo(StripAlpha(data, w * h), h, w, 3).value| == h
    ensures forall row, c :: 0 <= row < h && 0 <= c < w ==>
      && 4 * RowMajor(w, row, c) + 4 <= |data|
      && |ReshapeVideo(StripAlpha(data, w * h), h, w, 3).value[row]| == w
      && |ReshapeVideo(StripAlpha(data, w * h), h, w, 3).value[row][c]| == 3
    ensures forall row, c, j :: 0 <= row < h && 0 <= c < w && 0 <= j < 3 ==>
      ReshapeVideo(StripAlpha(data, w * h), h, w, 3).value[row][c][j] == data[4 * RowMajor(w, row, c) + j]
  {
    PayloadSize(h, w, 3);
    var p := ReshapeVideo(StripAlpha(data, w * h), h, w, 3);
    forall row, c | 0 <= row < h && 0 <= c < w
      ensures 4 * RowMajor(w, row, c) + 4 <= |data| && |p.value[row]| == w && |p.value[row][c]| == 3
    {
      VideoCellStripped(data, h, w, row, c, 0);
    }
    forall row, c, j | 0 <= row < h && 0 <= c < w && 0 <= j < 3
      ensures p.value[row][c][j] == data[4 * RowMajor(w, row, c) + j]
    {
      VideoCellStripped(data, h, w, row, c, j);
    }
  }

  /** get_data_from_socket on a video message: the header tuple and exactly
      the stripped pixels. */
  lemma VideoFrameReceived(frame: VideoFrame, timestamp: int, pvToWorld: Float4x4, more: seq<byte>)
    requires VideoStreaming.BitmapComplete(frame.bitmap)
    requires 0 <= timestamp < TWO_63
    requires 3 * frame.bitmap.pixelWidth < TWO_32 && frame.bitmap.pixelHeight < TWO_32
    ensures var b := frame.bitmap;
      FrameFromStream(HeaderFormat(VideoReceiver), VideoStreaming.FrameMessage(frame, timestamp, pvToWorld) + more)
        == Received(VideoHeaderFields(timestamp, b.pixelWidth, b.pixelHeight, frame.fx, frame.fy, pvToWorld),
                    StripAlpha(b.data, b.pixelWidth * b.pixelHeight))
  {
    var b := frame.bitmap;
    var w, h := b.pixelWidth, b.pixelHeight;
    var payload := StripAlpha(b.data, w * h);
    var msg := VideoStreaming.FrameMessage(frame, timestamp, pvToWorld);
    var header := VideoHeaderFields(timestamp, w, h, frame.fx, frame.fy, pvToWorld);
    HeaderFormatSizes();
    VideoHeaderRoundTrip(timestamp, w, h, frame.fx, frame.fy, pvToWorld, payload);
    WordMod(3 * w);
    PayloadSize(h, w, 3);
    assert ImageSizeBytes(header) == |payload|;
    assert msg[VIDEO_HEADER_SIZE..] == payload;
    ReceiveWholeMessage(HeaderFormat(VideoReceiver), msg, more, header);
  }

  /** The colour bytes (blue, green, red) of pixel (row, c) of a Bgra8
      buffer of width w: bytes 4 * (row * w + c) up to, not including, its alpha. */
  function Colour(data: seq<byte>, h: nat, w: nat, row: nat, c: nat): (px: seq<byte>)
    requires |data| >= 4 * (w * h) && row < h && c < w
    ensures 4 * RowMajor(w, row, c) + 4 <= |data|
    ensures |px| == 3
  {
    RowBound(w, h, row, c);
    data[4 * RowMajor(w, row, c) .. 4 * RowMajor(w, row, c) + 3]
  }

  /** The h x w image of colour triples of a Bgra8 buffer, row-major. */
  function ColourImage(data: seq<byte>, h: nat, w: nat): (img: seq<seq<seq<byte>>>)
    requires |data| >= 4 * (w * h)
    ensures |img| == h
    ensures forall row :: 0 <= row < h ==> |img[row]| == w
    ensures forall row, c :: 0 <= row < h && 0 <= c < w ==> img[row][c] == Colour(data, h, w, row, c)
  {
    seq(h, row requires 0 <= row < h =>
      seq(w, c requires 0 <= c < w => Colour(data, h, w, row, c)))
  }

  /** listen's video reshape of stripped pixels, for any header whose
      dimensions are the bitmap's and whose pixel stride is 3. */
  lemma VideoImageOfPayload(header: seq<Field>, data: seq<byte>, w: nat, h: nat)
    requires HasDimensions(header)
    requires header[IMAGE_HEIGHT_INDEX].u == h && header[IMAGE_WIDTH_INDEX].u == w
    requires header[PIXEL_STRIDE_INDEX].u == 3
    requires |data| >= 4 * (w * h)
    ensures ImageFromPayload(VideoReceiver, header, StripAlpha(data, w * h)) == Some(Pixels(ColourImage(data, h, w)))
  {
    VideoCellsStripped(data, h, w);
    var p := ReshapeVideo(StripAlpha(data, w * h), h, w, 3).value;
    var e := ColourImage(data, h, w);
    forall row | 0 <= row < h
      ensures p[row] == e[row]
    {
      forall c | 0 <= c < w
        ensures p[row][c] == e[row][c]
      {
        assert forall j :: 0 <= j < 3 ==> p[row][c][j] == e[row][c][j];
      }
    }
    assert p == e;
  }

  /** A video frame sent by VideoCameraStreamer, read by the video receiver:
      get_data_from_socket returns the header tuple and exactly the stripped
      pixels, and listen's (height, width, 3) reshape holds at (row, c) the
      blue, green and red bytes of bitmap pixel (row, c). Holds when the size
      fits the 32-bit header fields. */
  lemma VideoFrameRoundTrip(frame: VideoFrame, timestamp: int, pvToWorld: Float4x4, more: seq<byte>)
    requires VideoStreaming.BitmapComplete(frame.bitmap)
    requires 0 <= timestamp < TWO_63
    requires 3 * frame.bitmap.pixelWidth < TWO_32 && frame.bitmap.pixelHeight < TWO_32
    ensures var b := frame.bitmap;
      var r := FrameFromStream(HeaderFormat(VideoReceiver),
                               VideoStreaming.FrameMessage(frame, timestamp, pvToWorld) + more);
      && r == Received(VideoHeaderFields(timestamp, b.pixelWidth, b.pixelHeight, frame.fx, frame.fy, pvToWorld),
                       StripAlpha(b.data, b.pixelWidth * b.pixelHeight))
      && ImageFromPayload(VideoReceiver, r.header, r.imageData)
         == Some(Pixels(ColourImage(b.data, b.pixelHeight, b.pixelWidth)))
  {
    var b := frame.bitmap;
    VideoFrameReceived(frame, timestamp, pvToWorld, more);
    var header := VideoHeaderFields(timestamp, b.pixelWidth, b.pixelHeight, frame.fx, frame.fy, pvToWorld);
    VideoImageOfPayload(header, b.data, b.pixelWidth, b.pixelHeight);
  }

  /** get_mat_from_header on a decoded header returns the transpose of the
      matrix the server wrote row by row: entry (i, j) is the server's entry
      (j, i). */
  lemma TransformIsTransposed(kind: ReceiverKind, header: seq<Field>, m: Float4x4)
    requires |header| == |HeaderFormat(kind)|
    requires var first := if kind == VideoReceiver then 7 else 5;
      forall k :: 0 <= k < 16 ==> header[first + k] == Float32(m[k])
    ensures var t := TransformFromHeader(kind, header);
      && t.Some?
      && forall i, j :: 0 <= i < 4 && 0 <= j < 4 ==> t.value[i][j] == Float32(m[4 * j + i])
  {
    HeaderFormatSizes();
    var first := if kind == VideoReceiver then 7 else 5;
    var t := TransformFromHeader(kind, header);
    forall i, j | 0 <= i < 4 && 0 <= j < 4
      ensures t.value[i][j] == Float32(m[4 * j + i])
    {
      assert t.value[i][j] == header[first + (4 * j + i)];
    }
  }
}
