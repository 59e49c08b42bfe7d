/** Byte-level building blocks of the wire format: the little-endian words a
    DataWriter configured with ByteOrder::LittleEndian emits, the big-endian
    16-bit depth samples, and the opaque 32-bit words that stand for floats. */
module WireBytes {

  type byte = x: int | 0 <= x < 0x100
  type uint16 = x: int | 0 <= x < 0x1_0000
  type uint32 = x: int | 0 <= x < 0x1_0000_0000
  type uint64 = x: int | 0 <= x < 0x1_0000_0000_0000_0000

  const TWO_32: int := 0x1_0000_0000
  const TWO_63: int := 0x8000_0000_0000_0000
  const TWO_64: int := 0x1_0000_0000_0000_0000

  /** A float32 as it travels on the wire: its IEEE-754 bit pattern, kept opaque. */
  type FloatWord = uint32

  /** A float4x4 in row-major order (m11, m12, ..., m44). */
  type Float4x4 = m: seq<FloatWord> | |m| == 16 witness seq(16, _ => 0)

  function LE32(x: uint32): (r: seq<byte>)
    ensures |r| == 4
  {
    [x % 0x100, (x / 0x100) % 0x100, (x / 0x1_0000) % 0x100, x / 0x100_0000]
  }

  function FromLE32(b: seq<byte>): (x: uint32)
    requires |b| == 4
  {
    b[0] as int + 0x100 * (b[1] as int) + 0x1_0000 * (b[2] as int) + 0x100_0000 * (b[3] as int)
  }

  lemma LE32RoundTrip(x: uint32)
    ensures FromLE32(LE32(x)) == x
  {
    var q1 := x / 0x100;
    var q2 := q1 / 0x100;
    assert x / 0x1_0000 == q2;
    assert x / 0x100_0000 == q2 / 0x100;
    assert x == x % 0x100 + 0x100 * (q1 % 0x100) + 0x1_0000 * (q2 % 0x100) + 0x100_0000 * (q2 / 0x100);
  }

  function LE64(x: uint64): (r: seq<byte>)
    ensures |r| == 8
  {
    LE32(x % TWO_32) + LE32(x / TWO_32)
  }

  function FromLE64(b: seq<byte>): (x: uint64)
    requires |b| == 8
  {
    FromLE32(b[..4]) + TWO_32 * FromLE32(b[4..])
  }

  lemma LE64RoundTrip(x: uint64)
    ensures FromLE64(LE64(x)) == x
  {
    var b := LE64(x);
    assert b[..4] == LE32(x % TWO_32);
    assert b[4..] == LE32(x / TWO_32);
    LE32RoundTrip(x % TWO_32);
    LE32RoundTrip(x / TWO_32);
  }

  /** DataWriter::WriteUInt64 on a value the source holds as a signed
      long long: the conversion to UINT64 wraps modulo 2^64. */
  function WriteUInt64(x: int): (r: seq<byte>)
    ensures |r| == 8
    ensures FromLE64(r) == x % TWO_64
  {
    LE64RoundTrip(x % TWO_64);
    LE64(x % TWO_64)
  }

  /** DataWriter::WriteInt32: two's complement, i.e. the value modulo 2^32. */
  function WriteInt32(x: int): (r: seq<byte>)
    ensures |r| == 4
    ensures FromLE32(r) == x % TWO_32
  {
    LE32RoundTrip(x % TWO_32);
    LE32(x % TWO_32)
  }

  /** DataWriter::WriteSingle: the four bytes of the float's bit pattern. */
  function WriteSingle(w: FloatWord): (r: seq<byte>)
    ensures |r| == 4
    ensures FromLE32(r) == w
  {
    LE32RoundTrip(w);
    LE32(w)
  }

  /** Consecutive WriteSingle calls, one per word, in order. */
  function WriteWords(ws: seq<FloatWord>): (r: seq<byte>)
    ensures |r| == 4 * |ws|
  {
    if ws == [] then [] else WriteSingle(ws[0]) + WriteWords(ws[1..])
  }

  /** WriteMatrix4x4: m11..m14, m21..m24, m31..m34, m41..m44. */
  function WriteMatrix4x4(m: Float4x4): (r: seq<byte>)
    ensures |r| == 64
  {
    WriteWords(m)
  }

  lemma {:induction false} WriteWordsAt(ws: seq<FloatWord>, k: nat)
    requires k < |ws|
    ensures WriteWords(ws)[4 * k .. 4 * k + 4] == LE32(ws[k])
  {
    if k > 0 {
      WriteWordsAt(ws[1..], k - 1);
      assert WriteWords(ws) == LE32(ws[0]) + WriteWords(ws[1..]);
      assert WriteWords(ws)[4 * k .. 4 * k + 4] == WriteWords(ws[1..])[4 * (k - 1) .. 4 * (k - 1) + 4];
    }
  }

  /** The matrix word at row i, column j lands at bytes 4(4i+j) .. 4(4i+j)+3. */
  lemma MatrixLayout(m: Float4x4, i: nat, j: nat)
    requires i < 4 && j < 4
    ensures FromLE32(WriteMatrix4x4(m)[4 * (4 * i + j) .. 4 * (4 * i + j) + 4]) == m[4 * i + j]
  {
    WriteWordsAt(m, 4 * i + j);
    LE32RoundTrip(m[4 * i + j]);
  }

  /** One 16-bit value packed high byte first: (BYTE)(d >> 8), then (BYTE)d. */
  function BE16(d: uint16): (r: seq<byte>)
    ensures |r| == 2
  {
    [d / 0x100, d % 0x100]
  }

  function FromBE16(b: seq<byte>): (d: uint16)
    requires |b| == 2
  {
    0x100 * (b[0] as int) + b[1] as int
  }

  function FromLE16(b: seq<byte>): (d: uint16)
    requires |b| == 2
  {
    b[0] as int + 0x100 * (b[1] as int)
  }

  lemma BE16RoundTrip(d: uint16)
    ensures FromBE16(BE16(d)) == d
  {
  }

  /** The same two bytes read in little-endian order give the byte-swapped value. */
  function Swap16(d: uint16): (r: uint16)
  {
    (d % 0x100) * 0x100 + d / 0x100
  }

  lemma BE16ReadAsLE(d: uint16)
    ensures FromLE16(BE16(d)) == Swap16(d)
    ensures FromLE16(BE16(d)) == d <==> d / 0x100 == d % 0x100
  {
  }
}
