/** The Python reference client: the two header formats and how struct
    unpacks them, recvall's accumulation loop, get_data_from_socket, the
    reshaping listen applies to each payload, and get_mat_from_header. The
    socket is the sequence of bytes the server still sends; how many bytes one
    recv call delivers is the network's choice, given as `limits`. The host
    is little-endian, so '@' native byte order is little-endian. */
module SimpleClient {
  import opened WireBytes
  import opened Frames

  function Min(a: int, b: int): int { if a <= b then a else b }

  // ----- struct formats ---------------------------------------------------------

  /** The format characters the client uses: 'q', 'I' and 'f'. */
  datatype FieldCode = Int64Code | UInt32Code | Float32Code

  type Format = seq<FieldCode>

  function CodeSize(c: FieldCode): nat
  {
    match c
    case Int64Code => 8
    case UInt32Code => 4
    case Float32Code => 4
  }

  /** n copies of c. */
  function Repeat(c: FieldCode, n: nat): (r: Format)
    ensures |r| == n && forall k :: 0 <= k < n ==> r[k] == c
  {
    if n == 0 then [] else [c] + Repeat(c, n - 1)
  }

  /** "@qIIII16f": Timestamp, ImageWidth, ImageHeight, PixelStride, RowStride
      and the 16 rig2world transform entries M11..M44. */
  const RM_STREAM_HEADER_FORMAT: Format := [Int64Code] + Repeat(UInt32Code, 4) + Repeat(Float32Code, 16)

  /** "@qIIII18f": the same five fields, fx, fy and the 16 PVtoWorld entries. */
  const VIDEO_STREAM_HEADER_FORMAT: Format := [Int64Code] + Repeat(UInt32Code, 4) + Repeat(Float32Code, 18)

  /** Positions of the named header fields. */
  const TIMESTAMP_INDEX: nat := 0
  const IMAGE_WIDTH_INDEX: nat := 1
  const IMAGE_HEIGHT_INDEX: nat := 2
  const PIXEL_STRIDE_INDEX: nat := 3
  const ROW_STRIDE_INDEX: nat := 4
  const FX_INDEX: nat := 5
  const FY_INDEX: nat := 6

  /** Size of a format's fields laid end to end. */
  function CalcSize(fmt: Format): nat
    decreases |fmt|
  {
    if fmt == [] then 0 else CodeSize(fmt[0]) + CalcSize(fmt[1..])
  }

  /** Where field k starts. */
  function Offset(fmt: Format, k: nat): nat
    requires k <= |fmt|
  {
    CalcSize(fmt[..k])
  }

  /** A 64-bit timestamp followed only by 4-byte fields, as both headers are. */
  ghost predicate TimestampThenWords(fmt: Format)
  {
    |fmt| >= 1 && fmt[0] == Int64Code && forall k :: 1 <= k < |fmt| ==> fmt[k] != Int64Code
  }

  lemma {:induction false} WordsSize(fmt: Format)
    requires forall k :: 0 <= k < |fmt| ==> fmt[k] != Int64Code
    ensures CalcSize(fmt) == 4 * |fmt|
    decreases |fmt|
  {
    if fmt != [] {
      WordsSize(fmt[1..]);
    }
  }

  /** Field 0 is at offset 0 and field k >= 1 at 4k + 4, so every field sits
      at a multiple of its own size: '@' native alignment inserts no padding
      and the native layout is the fields laid end to end. */
  lemma HeaderOffsets(fmt: Format, k: nat)
    requires TimestampThenWords(fmt) && k <= |fmt|
    ensures Offset(fmt, k) == if k == 0 then 0 else 4 * k + 4
    ensures k < |fmt| ==> Offset(fmt, k) % CodeSize(fmt[k]) == 0
    ensures CalcSize(fmt) == 4 * |fmt| + 4
  {
    WordsSize(fmt[1..]);
    if k > 0 {
      assert fmt[..k][1..] == fmt[1..k];
      WordsSize(fmt[1..k]);
    }
  }

  /** The depth header has 21 fields and 88 bytes, the video header 23 fields
      and 96 bytes. */
  lemma HeaderFormatSizes()
    ensures TimestampThenWords(RM_STREAM_HEADER_FORMAT) && |RM_STREAM_HEADER_FORMAT| == 21
    ensures CalcSize(RM_STREAM_HEADER_FORMAT) == 88
    ensures TimestampThenWords(VIDEO_STREAM_HEADER_FORMAT) && |VIDEO_STREAM_HEADER_FORMAT| == 23
    ensures CalcSize(VIDEO_STREAM_HEADER_FORMAT) == 96
  {
    HeaderOffsets(RM_STREAM_HEADER_FORMAT, 0);
    HeaderOffsets(VIDEO_STREAM_HEADER_FORMAT, 0);
  }

  // ----- struct.unpack ----------------------------------------------------------

  /** A value struct.unpack produces: a signed 64-bit int, an unsigned
      32-bit int, or a float (kept as its bit pattern). */
  datatype Field = Int64(i: int) | UInt32(u: uint32) | Float32(word: FloatWord)

  predicate Matches(c: FieldCode, f: Field)
  {
    match c
    case Int64Code => f.Int64?
    case UInt32Code => f.UInt32?
    case Float32Code => f.Float32?
  }

  /** Two's-complement reading of a 64-bit pattern. */
  function Signed64(x: uint64): (v: int)
    ensures -TWO_63 <= v < TWO_63
    ensures v % TWO_64 == x
  {
    if x < TWO_63 then x else x - TWO_64
  }

  function DecodeField(c: FieldCode, b: seq<byte>): (f: Field)
    requires |b| == CodeSize(c)
    ensures Matches(c, f)
  {
    match c
    case Int64Code => Int64(Signed64(FromLE64(b)))
    case UInt32Code => UInt32(FromLE32(b))
    case Float32Code => Float32(FromLE32(b))
  }

  function UnpackFields(fmt: Format, b: seq<byte>): (r: seq<Field>)
    requires |b| == CalcSize(fmt)
    ensures |r| == |fmt| && forall k :: 0 <= k < |r| ==> Matches(fmt[k], r[k])
    decreases |fmt|
  {
    if fmt == [] then []
    else
      var n := CodeSize(fmt[0]);
      [DecodeField(fmt[0], b[..n])] + UnpackFields(fmt[1..], b[n..])
  }

  /** Field k of the unpacked tuple is the bytes at its offset, decoded. */
  lemma {:induction false} UnpackFieldAt(fmt: Format, b: seq<byte>, k: nat)
    requires |b| == CalcSize(fmt) && k < |fmt|
    ensures Offset(fmt, k) + CodeSize(fmt[k]) <= |b|
    ensures UnpackFields(fmt, b)[k] == DecodeField(fmt[k], b[Offset(fmt, k) .. Offset(fmt, k) + CodeSize(fmt[k])])
    decreases k
  {
    var n := CodeSize(fmt[0]);
    var rest := UnpackFields(fmt[1..], b[n..]);
    assert UnpackFields(fmt, b) == [DecodeField(fmt[0], b[..n])] + rest;
    if k == 0 {
      assert fmt[..0] == [];
    } else {
      UnpackFieldAt(fmt[1..], b[n..], k - 1);
      OffsetStep(fmt, k);
      var o := Offset(fmt[1..], k - 1);
      SliceShift(b, n, o, o + CodeSize(fmt[k]));
      assert UnpackFields(fmt, b)[k] == rest[k - 1];
    }
  }

  lemma OffsetStep(fmt: Format, k: nat)
    requires 0 < k <= |fmt|
    ensures Offset(fmt, k) == CodeSize(fmt[0]) + Offset(fmt[1..], k - 1)
  {
    assert fmt[..k][1..] == fmt[1..][..k - 1];
  }

  lemma SliceShift(b: seq<byte>, n: nat, i: nat, j: nat)
    requires i <= j && n + j <= |b|
    ensures b[n..][i .. j] == b[n + i .. n + j]
  {
  }

  /** struct.unpack: struct.error unless the buffer is exactly calcsize bytes. */
  function Unpack(fmt: Format, b: seq<byte>): (r: Option<seq<Field>>)
    ensures r.Some? <==> |b| == CalcSize(fmt)
    ensures r.Some? ==> |r.value| == |fmt|
  {
    if |b| == CalcSize(fmt) then Some(UnpackFields(fmt, b)) else None
  }

  // ----- recvall ----------------------------------------------------------------

  /** One socket.recv(bufsize): the next bytes the server sent, at most
      bufsize and at most what the network delivers (`limit`, at least one
      byte); b'' once the server has closed and everything was read. */
  function Recv(stream: seq<byte>, bufsize: nat, limit: nat): (part: seq<byte>)
    ensures |part| <= bufsize && |part| <= |stream| && part == stream[..|part|]
    ensures part == [] <==> stream == [] || bufsize == 0
  {
    stream[..Min(Min(bufsize, if limit == 0 then 1 else limit), |stream|)]
  }

  /** One pass of recvall's loop as written: `part == ''` compares bytes with
      a str, which is never true, so the part is always appended. */
  function RecvAllPass(msg: seq<byte>, size: nat, stream: seq<byte>, limit: nat): (next: seq<byte>)
    requires |msg| <= size && |msg| <= |stream|
    ensures |next| <= size && next == msg + Recv(stream[|msg|..], size - |msg|, limit)
  {
    msg + Recv(stream[|msg|..], size - |msg|, limit)
  }

  /** recvall as written, when the server sends at least size bytes: the
      first size bytes, never more. */
  method RecvAll(size: nat, stream: seq<byte>, limits: nat -> nat) returns (msg: seq<byte>)
    requires size <= |stream|
    ensures msg == stream[..size]
  {
    msg := [];
    var calls := 0;
    while |msg| < size
      invariant |msg| <= size && msg == stream[..|msg|]
      decreases size - |msg|
    {
      msg := RecvAllPass(msg, size, stream, limits(calls));
      calls := calls + 1;
    }
  }

  /** When the server closes before size bytes arrived, recvall as written
      never returns: once everything sent has been read, a pass leaves msg
      unchanged and `len(msg) < size` still holds. */
  lemma RecvAllSpinsAfterEarlyClose(size: nat, stream: seq<byte>, limit: nat)
    requires |stream| < size
    ensures RecvAllPass(stream, size, stream, limit) == stream
    ensures |RecvAllPass(stream, size, stream, limit)| < size
  {
    assert stream[|stream|..] == [];
  }

  /** recvall with the close check its comment intends (`if not part:
      break`): the first size bytes, or everything the server sent before
      closing. */
  method RecvAllUntilClosed(size: nat, stream: seq<byte>, limits: nat -> nat) returns (msg: seq<byte>)
    ensures msg == stream[..Min(size, |stream|)]
  {
    msg := [];
    var calls := 0;
    while |msg| < size
      invariant |msg| <= size && |msg| <= |stream| && msg == stream[..|msg|]
      decreases size - |msg|
    {
      var part := Recv(stream[|msg|..], size - |msg|, limits(calls));
      if part == [] {
        break;
      }
      msg := msg + part;
      calls := calls + 1;
    }
  }

  // ----- get_data_from_socket -------------------------------------------------

  /** How get_data_from_socket ends: a header tuple and the image bytes, None
      for an empty reply, or a struct.error from a short header. */
  datatype Received = Received(header: seq<Field>, imageData: seq<byte>) | NoReply | UnpackError

  ghost predicate IsHeaderFormat(fmt: Format)
  {
    && |fmt| > ROW_STRIDE_INDEX
    && fmt[IMAGE_WIDTH_INDEX] == UInt32Code && fmt[IMAGE_HEIGHT_INDEX] == UInt32Code
    && fmt[PIXEL_STRIDE_INDEX] == UInt32Code && fmt[ROW_STRIDE_INDEX] == UInt32Code
  }

  /** ImageWidth, ImageHeight, PixelStride and RowStride are unsigned ints. */
  predicate HasDimensions(header: seq<Field>)
  {
    && |header| > ROW_STRIDE_INDEX
    && header[IMAGE_WIDTH_INDEX].UInt32? && header[IMAGE_HEIGHT_INDEX].UInt32?
    && header[PIXEL_STRIDE_INDEX].UInt32? && header[ROW_STRIDE_INDEX].UInt32?
  }

  /** ImageHeight * RowStride, the payload size the client asks for. */
  function ImageSizeBytes(header: seq<Field>): nat
    requires |header| > ROW_STRIDE_INDEX && header[IMAGE_HEIGHT_INDEX].UInt32? && header[ROW_STRIDE_INDEX].UInt32?
  {
    header[IMAGE_HEIGHT_INDEX].u * header[ROW_STRIDE_INDEX].u
  }

  /** What get_data_from_socket returns when the server sends `stream` and
      then closes. */
  function FrameFromStream(fmt: Format, stream: seq<byte>): (r: Received)
    requires IsHeaderFormat(fmt)
    ensures r.Received? ==>
      && CalcSize(fmt) <= |stream|
      && HasDimensions(r.header)
      && Unpack(fmt, stream[..CalcSize(fmt)]) == Some(r.header)
      && r.imageData == stream[CalcSize(fmt) .. Min(CalcSize(fmt) + ImageSizeBytes(r.header), |stream|)]
    ensures r == NoReply <==> stream == [] || CalcSize(fmt) == 0
    ensures r == UnpackError <==> 0 < |stream| < CalcSize(fmt)
  {
    var headerSize := CalcSize(fmt);
    var reply := stream[..Min(headerSize, |stream|)];
    if reply == [] then NoReply
    else if |reply| != headerSize then UnpackError
    else
      var header := UnpackFields(fmt, reply);
      var rest := stream[headerSize..];
      var imageData := rest[..Min(ImageSizeBytes(header), |rest|)];
      assert imageData == stream[headerSize .. Min(headerSize + ImageSizeBytes(header), |stream|)];
      Received(header, imageData)
  }

  /** get_data_from_socket, reading with the corrected recvall; rest is what
      remains of the stream afterwards. */
  method ReceiveFrame(fmt: Format, stream: seq<byte>, limits: nat -> nat) returns (r: Received, rest: seq<byte>)
    requires IsHeaderFormat(fmt)
    ensures r == FrameFromStream(fmt, stream)
    ensures r.Received? ==> rest == stream[CalcSize(fmt) + |r.imageData|..]
  {
    var headerSize := CalcSize(fmt);
    var reply := RecvAllUntilClosed(headerSize, stream, limits);
    rest := stream[|reply|..];
    if reply == [] {
      return NoReply, rest;
    }
    var data := Unpack(fmt, reply);
    if data.None? {
      return UnpackError, rest;
    }
    var header := data.value;
    var imageSizeBytes := header[IMAGE_HEIGHT_INDEX].u * header[ROW_STRIDE_INDEX].u;
    var imageData := RecvAllUntilClosed(imageSizeBytes, rest, limits);
    assert imageData == stream[headerSize .. Min(headerSize + imageSizeBytes, |stream|)];
    rest := rest[|imageData|..];
    return Received(header, imageData), rest;
  }

  // ----- Reshaping the payload ----------------------------------------------------

  lemma MulMono(a: nat, b: nat, m: nat)
    requires a <= b
    ensures a * m <= b * m
  {
    assert b * m == a * m + (b - a) * m;
  }

  /** Cell (r, c) of an (h, w, d) array ends inside its h * w * d bytes. */
  lemma CellEnd(h: nat, w: nat, d: nat, r: nat, c: nat)
    requires r < h && c < w
    ensures (r * w + c) * d + d <= h * w * d
  {
    assert (r + 1) * w == r * w + w;
    MulMono(r + 1, h, w);
    var i := r * w + c;
    assert (i + 1) * d == i * d + d;
    MulMono(i + 1, h * w, d);
  }

  /** Cell (row, c) of an (h, w, d) byte array: its d bytes from (row*w + c)*d. */
  function VideoCell(data: seq<byte>, h: nat, w: nat, d: nat, row: nat, c: nat): (cell: seq<byte>)
    requires |data| == h * w * d && row < h && c < w
    ensures (row * w + c) * d + d <= |data|
    ensures |cell| == d && forall k :: 0 <= k < d ==> cell[k] == data[(row * w + c) * d + k]
  {
    CellEnd(h, w, d, row, c);
    var base := (row * w + c) * d;
    data[base .. base + d]
  }

  function VideoRow(data: seq<byte>, h: nat, w: nat, d: nat, row: nat): (cells: seq<seq<byte>>)
    requires |data| == h * w * d && row < h
    ensures |cells| == w && forall c :: 0 <= c < w ==> cells[c] == VideoCell(data, h, w, d, row, c)
  {
    seq(w, c requires 0 <= c < w => VideoCell(data, h, w, d, row, c))
  }

  /** np.frombuffer(data, uint8).reshape((H, W, PixelStride)): a ValueError
      unless the sizes agree; cell (r, c, k) is byte (r*W + c)*PixelStride + k. */
  function ReshapeVideo(data: seq<byte>, h: nat, w: nat, d: nat): (r: Option<seq<seq<seq<byte>>>>)
    ensures r.Some? <==> |data| == h * w * d
    ensures r.Some? ==> |r.value| == h && forall row :: 0 <= row < h ==> |r.value[row]| == w
    ensures r.Some? ==> forall row, c :: 0 <= row < h && 0 <= c < w ==> r.value[row][c] == VideoCell(data, h, w, d, row, c)
  {
    if |data| != h * w * d then None
    else Some(seq(h, row requires 0 <= row < h => VideoRow(data, h, w, d, row)))
  }

  /** Cell (row, c) of an (h, w) uint16 array read in little-endian order. */
  function DepthCell(data: seq<byte>, h: nat, w: nat, row: nat, c: nat): (v: uint16)
    requires |data| == h * w * 2 && row < h && c < w
    ensures (row * w + c) * 2 + 2 <= |data|
    ensures v == FromLE16(data[(row * w + c) * 2 .. (row * w + c) * 2 + 2])
  {
    CellEnd(h, w, 2, row, c);
    FromLE16(data[(row * w + c) * 2 .. (row * w + c) * 2 + 2])
  }

  function DepthRow(data: seq<byte>, h: nat, w: nat, row: nat): (cells: seq<uint16>)
    requires |data| == h * w * 2 && row < h
    ensures |cells| == w && forall c :: 0 <= c < w ==> cells[c] == DepthCell(data, h, w, row, c)
  {
    seq(w, c requires 0 <= c < w => DepthCell(data, h, w, row, c))
  }

  /** np.frombuffer(data, uint16).reshape((H, W)) on a little-endian host: a
      ValueError unless the byte count is even and the sizes agree; cell
      (r, c) is the little-endian word at byte 2*(r*W + c). */
  function ReshapeDepth(data: seq<byte>, h: nat, w: nat): (r: Option<seq<seq<uint16>>>)
    ensures r.Some? <==> |data| == h * w * 2
    ensures r.Some? ==> |r.value| == h && forall row :: 0 <= row < h ==> |r.value[row]| == w
    ensures r.Some? ==> forall row, c :: 0 <= row < h && 0 <= c < w ==> r.value[row][c] == DepthCell(data, h, w, row, c)
  {
    if |data| != h * w * 2 then None
    else Some(seq(h, row requires 0 <= row < h => DepthRow(data, h, w, row)))
  }

  // ----- get_mat_from_header --------------------------------------------------------

  /** np.array(header[start:stop]).reshape((4, 4)).T: the slice is clamped to
      the tuple, the reshape needs exactly 16 values, and after the transpose
      entry (i, j) is the slice's value 4*j + i. */
  function MatFromHeader(header: seq<Field>, start: nat, stop: nat): (r: Option<seq<seq<Field>>>)
    requires start <= stop
    ensures r.Some? <==> Min(stop, |header|) - Min(start, |header|) == 16
    ensures r.Some? ==> |r.value| == 4 && forall i :: 0 <= i < 4 ==> |r.value[i]| == 4
    ensures r.Some? ==> forall i, j :: 0 <= i < 4 && 0 <= j < 4 ==>
      start + 4 * j + i < |header| && r.value[i][j] == header[start + 4 * j + i]
  {
    var values := header[Min(start, |header|) .. Min(stop, |header|)];
    if |values| != 16 then None
    else Some(seq(4, i requires 0 <= i < 4 => TransposedRow(values, i)))
  }

  /** Row i of the transpose of a row-major 4x4 reshape: column i. */
  function TransposedRow(values: seq<Field>, i: nat): (row: seq<Field>)
    requires |values| == 16 && i < 4
    ensures |row| == 4 && forall j :: 0 <= j < 4 ==> row[j] == values[4 * j + i]
  {
    seq(4, j requires 0 <= j < 4 => values[4 * j + i])
  }

  // ----- The receiver threads ----------------------------------------------------

  datatype ReceiverKind = VideoReceiver | AhatReceiver

  function HeaderFormat(kind: ReceiverKind): (fmt: Format)
    ensures IsHeaderFormat(fmt)
  {
    match kind
    case VideoReceiver => VIDEO_STREAM_HEADER_FORMAT
    case AhatReceiver => RM_STREAM_HEADER_FORMAT
  }

  datatype Image = Pixels(pixels: seq<seq<seq<byte>>>) | DepthImage(depth: seq<seq<uint16>>)

  /** The reshape listen applies: (ImageHeight, ImageWidth, PixelStride)
      bytes for video, (ImageHeight, ImageWidth) uint16 for depth. */
  function ImageFromPayload(kind: ReceiverKind, header: seq<Field>, imageData: seq<byte>): (r: Option<Image>)
    requires HasDimensions(header)
    ensures r.Some? <==> |imageData| == header[IMAGE_HEIGHT_INDEX].u * header[IMAGE_WIDTH_INDEX].u
                                        * (if kind == VideoReceiver then header[PIXEL_STRIDE_INDEX].u else 2)
  {
    var h := header[IMAGE_HEIGHT_INDEX].u;
    var w := header[IMAGE_WIDTH_INDEX].u;
    if kind == VideoReceiver then
      var p := ReshapeVideo(imageData, h, w, header[PIXEL_STRIDE_INDEX].u);
      if p.Some? then Some(Pixels(p.value)) else None
    else
      var d := ReshapeDepth(imageData, h, w);
      if d.Some? then Some(DepthImage(d.value)) else None
  }

  /** get_mat_from_header of the two receivers: header[7:24] for video,
      header[5:22] for depth. */
  function TransformFromHeader(kind: ReceiverKind, header: seq<Field>): (r: Option<seq<seq<Field>>>)
    ensures |header| == |HeaderFormat(kind)| ==> r.Some?
  {
    match kind
    case VideoReceiver => MatFromHeader(header, 7, 24)
    case AhatReceiver => MatFromHeader(header, 5, 22)
  }

  /** A VideoReceiverThread or AhatReceiverThread after start_socket. */
  class FrameReceiver {
    const kind: ReceiverKind
    var latestHeader: Option<seq<Field>>
    var latestFrame: Option<Image>
    /** The bytes the server has sent that the client has not read yet. */
    var stream: seq<byte>
    /** The listen loop is still going: no exception has ended it. */
    var listening: bool

    constructor (kind: ReceiverKind, stream: seq<byte>)
      ensures this.kind == kind && this.stream == stream
      ensures latestHeader.None? && latestFrame.None? && listening
    {
      this.kind := kind;
      this.stream := stream;
      latestHeader := None;
      latestFrame := None;
      listening := true;
    }

    /** One pass of listen. A None from get_data_from_socket (or a
        struct.error) ends the loop with nothing updated; otherwise
        latest_header is set first, and a reshape that fails ends the loop
        before latest_frame is set. */
    method ListenStep(limits: nat -> nat)
      requires listening
      modifies this
      ensures var r := FrameFromStream(HeaderFormat(kind), old(stream));
        if r.Received? then
          && latestHeader == Some(r.header)
          && stream == old(stream)[CalcSize(HeaderFormat(kind)) + |r.imageData|..]
          && var image := ImageFromPayload(kind, r.header, r.imageData);
             listening == image.Some? && latestFrame == (if image.Some? then image else old(latestFrame))
        else
          latestHeader == old(latestHeader) && latestFrame == old(latestFrame) && !listening
    {
      var r, rest := ReceiveFrame(HeaderFormat(kind), stream, limits);
      stream := rest;
      if !r.Received? {
        listening := false;
        return;
      }
      latestHeader := Some(r.header);
      var image := ImageFromPayload(kind, r.header, r.imageData);
      if image.None? {
        listening := false;
        return;
      }
      latestFrame := image;
    }
  }
}
