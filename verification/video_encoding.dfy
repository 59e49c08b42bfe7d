/** The video-frame message VideoCameraStreamer writes: a little-endian header
    with a 3-byte pixel stride and the focal lengths, the camera-to-world
    matrix, then the Bgra8 bitmap with its alpha byte stripped from every pixel. */
module VideoEncoding {
  import opened WireBytes

  /** Timestamp, width, height, pixel stride, row stride, fx, fy and 16 matrix words. */
  const VIDEO_HEADER_SIZE: int := 96

  /** Bytes per pixel of the Bgra8 bitmap the frame is converted to. */
  const BGRA_PIXEL_STRIDE: int := 4

  /** The first three bytes of each of the first `pixels` 4-byte pixels,
      in pixel order: output byte 3p + j is input byte 4p + j. */
  function StripAlpha(pixelBufferData: seq<byte>, pixels: nat): (r: seq<byte>)
    requires |pixelBufferData| >= 4 * pixels
    ensures |r| == 3 * pixels
  {
    seq(3 * pixels, k requires 0 <= k < 3 * pixels => pixelBufferData[4 * (k / 3) + k % 3])
  }

  lemma PixelIndex(p: nat, j: nat)
    requires j < 3
    ensures (3 * p + j) / 3 == p && (3 * p + j) % 3 == j
  {
  }

  /** Row r, column c, channel j < 3 of a width-W image, pixel p = rW + c:
      output byte 3p + j is input byte 4p + j; the alpha byte 4p + 3 is never copied. */
  lemma StripAlphaAt(pixelBufferData: seq<byte>, imageWidth: nat, imageHeight: nat, r: nat, c: nat, j: nat)
    requires |pixelBufferData| >= 4 * (imageWidth * imageHeight)
    requires r < imageHeight && c < imageWidth && j < 3
    ensures 3 * (r * imageWidth + c) + j < 3 * (imageWidth * imageHeight)
    ensures 4 * (r * imageWidth + c) + j < |pixelBufferData|
    ensures StripAlpha(pixelBufferData, imageWidth * imageHeight)[3 * (r * imageWidth + c) + j]
            == pixelBufferData[4 * (r * imageWidth + c) + j]
  {
    var p := r * imageWidth + c;
    RowBound(imageWidth, imageHeight, r, c);
    PixelIndex(p, j);
  }

  lemma RowBound(w: nat, h: nat, r: nat, c: nat)
    requires r < h && c < w
    ensures r * w + c < w * h
  {
    assert r * w + c < r * w + w == (r + 1) * w;
    assert (r + 1) * w <= h * w;
  }

  /** v holds the colour bytes of its first |v| / 3 pixels, as StripAlpha lays them out. */
  ghost predicate StrippedPrefix(v: seq<byte>, pixelBufferData: seq<byte>)
  {
    forall k :: 0 <= k < |v| ==>
      4 * (k / 3) + k % 3 < |pixelBufferData| && v[k] == pixelBufferData[4 * (k / 3) + k % 3]
  }

  /** The innermost loop: for j in 0 .. pixelStride - 2, emplace the byte at
      pixelBase + j, where pixelBase = row * rowStride + col addresses pixel p. */
  method AppendPixel(imageBufferAsVector: seq<byte>, pixelBufferData: seq<byte>, pixelBase: nat, ghost p: nat)
    returns (extended: seq<byte>)
    requires pixelBase == 4 * p && pixelBase + 4 <= |pixelBufferData|
    requires |imageBufferAsVector| == 3 * p && StrippedPrefix(imageBufferAsVector, pixelBufferData)
    ensures |extended| == 3 * p + 3 && StrippedPrefix(extended, pixelBufferData)
    ensures extended == imageBufferAsVector + pixelBufferData[pixelBase .. pixelBase + 3]
  {
    extended := imageBufferAsVector;
    var j := 0;
    while j < BGRA_PIXEL_STRIDE - 1
      invariant 0 <= j <= BGRA_PIXEL_STRIDE - 1
      invariant extended == imageBufferAsVector + pixelBufferData[pixelBase .. pixelBase + j]
      invariant StrippedPrefix(extended, pixelBufferData)
    {
      PixelIndex(p, j);
      extended := extended + [pixelBufferData[pixelBase + j]];
      j := j + 1;
    }
  }

  /** The repacking loops of Send: for every row, every 4-byte pixel of the
      row, and j in 0 .. pixelStride - 2, emplace pixelBufferData[row * rowStride + col + j].
      The loops read up to index height * width * 4 - 1 without checking the
      buffer length, so that length is a precondition here. */
  method RepackBgra(pixelBufferData: seq<byte>, imageWidth: nat, imageHeight: nat)
    returns (imageBufferAsVector: seq<byte>)
    requires |pixelBufferData| >= 4 * (imageWidth * imageHeight)
    ensures imageBufferAsVector == StripAlpha(pixelBufferData, imageWidth * imageHeight)
    ensures |imageBufferAsVector| == imageHeight * imageWidth * 3
  {
    var pixelStride := BGRA_PIXEL_STRIDE;
    var rowStride := imageWidth * pixelStride;
    imageBufferAsVector := [];
    var row := 0;
    while row < imageHeight
      invariant 0 <= row <= imageHeight
      invariant |imageBufferAsVector| == 3 * (row * imageWidth)
      invariant StrippedPrefix(imageBufferAsVector, pixelBufferData)
    {
      var col := 0;
      ghost var p := row * imageWidth;
      while col < rowStride
        invariant 0 <= col <= rowStride && col == 4 * (p - row * imageWidth)
        invariant row * imageWidth <= p <= row * imageWidth + imageWidth
        invariant |imageBufferAsVector| == 3 * p
        invariant StrippedPrefix(imageBufferAsVector, pixelBufferData)
      {
        RowBound(imageWidth, imageHeight, row, col / 4);
        assert row * rowStride == 4 * (row * imageWidth);
        imageBufferAsVector := AppendPixel(imageBufferAsVector, pixelBufferData, row * rowStride + col, p);
        p := p + 1;
        col := col + pixelStride;
      }
      assert p == row * imageWidth + imageWidth == (row + 1) * imageWidth;
      row := row + 1;
    }
    assert row * imageWidth == imageWidth * imageHeight;
  }

  /** The header: UInt64 timestamp, Int32 width, height, pixelStride - 1 = 3,
      width * 3, then fx and fy. */
  function VideoHeader(pTimestamp: int, imageWidth: int, imageHeight: int, fx: FloatWord, fy: FloatWord): (r: seq<byte>)
    ensures |r| == 32
  {
    WriteUInt64(pTimestamp) + WriteInt32(imageWidth) + WriteInt32(imageHeight)
      + WriteInt32(BGRA_PIXEL_STRIDE - 1) + WriteInt32(imageWidth * (BGRA_PIXEL_STRIDE - 1))
      + WriteSingle(fx) + WriteSingle(fy)
  }

  /** Everything one successful Send hands to the writer, in write order. */
  function VideoMessage(pTimestamp: int, imageWidth: int, imageHeight: int, fx: FloatWord, fy: FloatWord,
                        pvToWorld: Float4x4, imageBufferAsVector: seq<byte>): (r: seq<byte>)
    ensures |r| == VIDEO_HEADER_SIZE + |imageBufferAsVector|
  {
    VideoHeader(pTimestamp, imageWidth, imageHeight, fx, fy) + WriteMatrix4x4(pvToWorld) + imageBufferAsVector
  }

  /** The five integer fields of the video header, one after the other. */
  lemma IntegerFieldsLayout(pTimestamp: int, imageWidth: int, imageHeight: int)
    ensures var p := WriteUInt64(pTimestamp) + WriteInt32(imageWidth) + WriteInt32(imageHeight)
                     + WriteInt32(BGRA_PIXEL_STRIDE - 1) + WriteInt32(imageWidth * (BGRA_PIXEL_STRIDE - 1));
      && |p| == 24
      && p[0..8] == WriteUInt64(pTimestamp) && p[8..12] == WriteInt32(imageWidth)
      && p[12..16] == WriteInt32(imageHeight) && p[16..20] == WriteInt32(3)
      && p[20..24] == WriteInt32(imageWidth * (BGRA_PIXEL_STRIDE - 1))
  {
    var p4 := WriteUInt64(pTimestamp) + WriteInt32(imageWidth) + WriteInt32(imageHeight)
              + WriteInt32(BGRA_PIXEL_STRIDE - 1);
    var last := WriteInt32(imageWidth * (BGRA_PIXEL_STRIDE - 1));
    assert |p4| == 20;
    PrefixSlices(p4, last, 20);
    assert (p4 + last)[20..24] == last;
  }

  /** Field offsets of the video header. */
  lemma VideoHeaderLayout(pTimestamp: int, imageWidth: int, imageHeight: int, fx: FloatWord, fy: FloatWord)
    ensures var h := VideoHeader(pTimestamp, imageWidth, imageHeight, fx, fy);
      && FromLE64(h[0..8]) == pTimestamp % TWO_64
      && FromLE32(h[8..12]) == imageWidth % TWO_32
      && FromLE32(h[12..16]) == imageHeight % TWO_32
      && FromLE32(h[16..20]) == 3
      && FromLE32(h[20..24]) == (imageWidth * 3) % TWO_32
      && FromLE32(h[24..28]) == fx
      && FromLE32(h[28..32]) == fy
  {
    var p := WriteUInt64(pTimestamp) + WriteInt32(imageWidth) + WriteInt32(imageHeight)
             + WriteInt32(BGRA_PIXEL_STRIDE - 1) + WriteInt32(imageWidth * (BGRA_PIXEL_STRIDE - 1));
    var q := p + WriteSingle(fx);
    IntegerFieldsLayout(pTimestamp, imageWidth, imageHeight);
    PrefixSlices(p, WriteSingle(fx), 24);
    PrefixSlices(q, WriteSingle(fy), 28);
    assert q[24..28] == WriteSingle(fx);
    assert (q + WriteSingle(fy))[28..32] == WriteSingle(fy);
  }

  /** Field offsets of the video message: each field decodes back to the value written. */
  lemma VideoMessageLayout(pTimestamp: int, imageWidth: int, imageHeight: int, fx: FloatWord, fy: FloatWord,
                           pvToWorld: Float4x4, imageBufferAsVector: seq<byte>)
    ensures var msg := VideoMessage(pTimestamp, imageWidth, imageHeight, fx, fy, pvToWorld, imageBufferAsVector);
      && FromLE64(msg[0..8]) == pTimestamp % TWO_64
      && FromLE32(msg[8..12]) == imageWidth % TWO_32
      && FromLE32(msg[12..16]) == imageHeight % TWO_32
      && FromLE32(msg[16..20]) == 3
      && FromLE32(msg[20..24]) == (imageWidth * 3) % TWO_32
      && FromLE32(msg[24..28]) == fx
      && FromLE32(msg[28..32]) == fy
      && msg[32..96] == WriteMatrix4x4(pvToWorld)
      && msg[96..] == imageBufferAsVector
  {
    var h := VideoHeader(pTimestamp, imageWidth, imageHeight, fx, fy);
    var msg := VideoMessage(pTimestamp, imageWidth, imageHeight, fx, fy, pvToWorld, imageBufferAsVector);
    VideoHeaderLayout(pTimestamp, imageWidth, imageHeight, fx, fy);
    assert msg == h + (WriteMatrix4x4(pvToWorld) + imageBufferAsVector);
    PrefixSlices(h, WriteMatrix4x4(pvToWorld) + imageBufferAsVector, 32);
  }

  /** Slices that end inside the first n bytes of a + b are slices of a. */
  lemma PrefixSlices(a: seq<byte>, b: seq<byte>, n: nat)
    requires n <= |a|
    ensures forall i, j :: 0 <= i <= j <= n ==> (a + b)[i..j] == a[i..j]
  {
  }
}
