/** The depth-frame message the research-mode streamers write: a little-endian
    header, the rig-to-world matrix, then every depth sample clamped and
    packed high byte first (ResearchModeFrameStreamer.cpp and Streamer.cpp
    build it identically). */
module DepthEncoding {
  import opened WireBytes

  /** Invalidation value for AHAT: samples at or above it are sent as 0. */
  const MAX_VALUE: int := 4090

  /** Timestamp, width, height, pixel stride, row stride and 16 matrix words. */
  const DEPTH_HEADER_SIZE: int := 88

  /** The invalidation clamp applied to one sample. */
  function Clamp(v: uint16): (d: uint16)
    ensures d < MAX_VALUE
    ensures v < MAX_VALUE ==> d == v
    ensures d != v ==> d == 0
  {
    if v >= MAX_VALUE then 0 else v
  }

  /** The bytes the sample loop pushes for the first |depth| samples. */
  function DepthPayload(depth: seq<uint16>): (r: seq<byte>)
    ensures |r| == 2 * |depth| && |r| % 2 == 0
  {
    if depth == [] then []
    else DepthPayload(depth[..|depth| - 1]) + BE16(Clamp(depth[|depth| - 1]))
  }

  /** Sample k occupies bytes 2k (high byte) and 2k + 1 (low byte). */
  lemma {:induction false} DepthPayloadAt(depth: seq<uint16>, k: nat)
    requires k < |depth|
    ensures DepthPayload(depth)[2 * k .. 2 * k + 2] == BE16(Clamp(depth[k]))
    ensures DepthPayload(depth)[2 * k] == Clamp(depth[k]) / 0x100
    ensures DepthPayload(depth)[2 * k + 1] == Clamp(depth[k]) % 0x100
  {
    var n := |depth|;
    var init := depth[..n - 1];
    assert DepthPayload(depth) == DepthPayload(init) + BE16(Clamp(depth[n - 1]));
    if k < n - 1 {
      DepthPayloadAt(init, k);
      assert depth[k] == init[k];
    }
  }

  /** The validation loop of Send: for each of the outBufferCount samples,
      push (BYTE)(d >> 8) then (BYTE)d, where d is the clamped sample. */
  method PackDepthSamples(pDepth: seq<uint16>) returns (depthByteData: seq<byte>)
    ensures depthByteData == DepthPayload(pDepth)
    ensures |depthByteData| == 2 * |pDepth|
    ensures forall k :: 0 <= k < |pDepth| ==>
      FromBE16(depthByteData[2 * k .. 2 * k + 2]) == Clamp(pDepth[k])
  {
    depthByteData := [];
    var i := 0;
    while i < |pDepth|
      invariant 0 <= i <= |pDepth|
      invariant depthByteData == DepthPayload(pDepth[..i])
    {
      var invalid := pDepth[i] >= MAX_VALUE;
      var d: uint16;
      if invalid {
        d := 0;
      } else {
        d := pDepth[i];
      }
      depthByteData := depthByteData + [d / 0x100];
      depthByteData := depthByteData + [d % 0x100];
      assert pDepth[..i + 1][..i] == pDepth[..i];
      i := i + 1;
    }
    assert pDepth[..i] == pDepth;
    forall k | 0 <= k < |pDepth|
      ensures FromBE16(depthByteData[2 * k .. 2 * k + 2]) == Clamp(pDepth[k])
    {
      DepthPayloadAt(pDepth, k);
      BE16RoundTrip(Clamp(pDepth[k]));
    }
  }

  /** The header: UInt64 timestamp, Int32 width, height, pixel stride and
      row stride = width * pixel stride (all little-endian). */
  function DepthHeader(timestamp: int, imageWidth: int, imageHeight: int, pixelStride: int): (r: seq<byte>)
    ensures |r| == 24
  {
    WriteUInt64(timestamp) + WriteInt32(imageWidth) + WriteInt32(imageHeight)
      + WriteInt32(pixelStride) + WriteInt32(imageWidth * pixelStride)
  }

  /** Everything one successful Send hands to the writer, in write order. */
  function DepthMessage(timestamp: int, imageWidth: int, imageHeight: int, pixelStride: int,
                        rig2world: Float4x4, depthByteData: seq<byte>): (r: seq<byte>)
    ensures |r| == DEPTH_HEADER_SIZE + |depthByteData|
  {
    DepthHeader(timestamp, imageWidth, imageHeight, pixelStride)
      + WriteMatrix4x4(rig2world) + depthByteData
  }

  /** Field offsets of the depth message: each field decodes back to the value written. */
  lemma DepthMessageLayout(timestamp: int, imageWidth: int, imageHeight: int, pixelStride: int,
                           rig2world: Float4x4, depthByteData: seq<byte>)
    ensures var msg := DepthMessage(timestamp, imageWidth, imageHeight, pixelStride, rig2world, depthByteData);
      && FromLE64(msg[0..8]) == timestamp % TWO_64
      && FromLE32(msg[8..12]) == imageWidth % TWO_32
      && FromLE32(msg[12..16]) == imageHeight % TWO_32
      && FromLE32(msg[16..20]) == pixelStride % TWO_32
      && FromLE32(msg[20..24]) == (imageWidth * pixelStride) % TWO_32
      && msg[24..88] == WriteMatrix4x4(rig2world)
      && msg[88..] == depthByteData
  {
    var msg := DepthMessage(timestamp, imageWidth, imageHeight, pixelStride, rig2world, depthByteData);
    assert msg[0..8] == WriteUInt64(timestamp);
    assert msg[8..12] == WriteInt32(imageWidth);
    assert msg[12..16] == WriteInt32(imageHeight);
    assert msg[16..20] == WriteInt32(pixelStride);
    assert msg[20..24] == WriteInt32(imageWidth * pixelStride);
  }
}
