/** Byte-level access to a disc image: Python-style clamped reads and the
    little-endian decoders `to_uint16` / `to_uint32` of read_udf.py.

    A byte of the image is an integer in 0..255. */
module Bytes {

  type Byte = b: int | 0 <= b < 0x100

  /** `to_int`: the unsigned value of one byte (an unpack of one unsigned
      char), which for `Byte` is the byte itself. */
  function ToInt(b: Byte): (r: nat)
    ensures r < 0x100
  {
    b
  }

  function Min(a: int, b: int): int {
    if a <= b then a else b
  }

  /** `s[lo:hi]` in Python for non-negative bounds: both ends are clamped to
      the length, so slicing past the end yields a shorter (possibly empty)
      sequence instead of failing. */
  function Slice(s: seq<Byte>, lo: nat, hi: nat): (r: seq<Byte>)
    ensures lo <= hi ==> |r| == Min(hi, |s|) - Min(lo, |s|)
    ensures hi < lo ==> r == []
    ensures forall i :: 0 <= i < |r| ==> lo + i < |s| && r[i] == s[lo + i]
    ensures lo <= hi <= |s| ==> r == s[lo..hi]
  {
    var a := Min(lo, |s|);
    var b := Min(hi, |s|);
    if a <= b then s[a..b] else []
  }

  /** `file.seek(off); file.read(n)` on an image whose contents are `data`:
      at most `n` bytes, fewer when the read runs past the end. */
  function Read(data: seq<Byte>, off: nat, n: nat): (r: seq<Byte>)
    ensures |r| <= n
    ensures |r| == Min(off + n, |data|) - Min(off, |data|)
    ensures |r| == n <==> n == 0 || off + n <= |data|
    ensures forall i :: 0 <= i < |r| ==> off + i < |data| && r[i] == data[off + i]
    ensures off + n <= |data| ==> r == data[off..off + n]
  {
    Slice(data, off, off + n)
  }

  /** The source assembles its integers with shifts, masks and bitwise-or.
      For operands below 0x100 every mask keeps the whole shifted byte and the
      shifted bytes occupy disjoint bit ranges, so the or is a sum of
      multiples of powers of 256; these two facts are what lets the decoders
      below be written arithmetically. */
  lemma ShiftMaskOr16(hi: bv32, lo: bv32)
    requires hi < 0x100 && lo < 0x100
    ensures ((hi << 8) & 0xFF00) | ((lo << 0) & 0x00FF) == hi * 0x100 + lo
  {
  }

  lemma ShiftMaskOr32(b3: bv32, b2: bv32, b1: bv32, b0: bv32)
    requires b3 < 0x100 && b2 < 0x100 && b1 < 0x100 && b0 < 0x100
    ensures ((b3 << 24) & 0xFF00_0000) | ((b2 << 16) & 0x00FF_0000) | ((b1 << 8) & 0x0000_FF00) | ((b0 << 0) & 0x0000_00FF)
         == b3 * 0x100_0000 + b2 * 0x1_0000 + b1 * 0x100 + b0
  {
  }

  /** `to_uint16`: two bytes at `off`, least significant first. */
  function ToUint16(buf: seq<Byte>, off: nat): (r: nat)
    requires off + 2 <= |buf|
    ensures r < 0x1_0000
  {
    ToInt(buf[off + 1]) * 0x100 + ToInt(buf[off])
  }

  /** `to_uint32`: four bytes at `off`, least significant first. */
  function ToUint32(buf: seq<Byte>, off: nat): (r: nat)
    requires off + 4 <= |buf|
    ensures r < 0x1_0000_0000
  {
    ToInt(buf[off + 3]) * 0x100_0000 + ToInt(buf[off + 2]) * 0x1_0000 + ToInt(buf[off + 1]) * 0x100 + ToInt(buf[off])
  }

  /** `v` as two little-endian bytes: the inverse of `ToUint16`. */
  function EncodeUint16(v: nat): (r: seq<Byte>)
    requires v < 0x1_0000
    ensures |r| == 2
  {
    [v % 0x100, v / 0x100]
  }

  /** `v` as four little-endian bytes: the inverse of `ToUint32`. */
  function EncodeUint32(v: nat): (r: seq<Byte>)
    requires v < 0x1_0000_0000
    ensures |r| == 4
  {
    [v % 0x100, v / 0x100 % 0x100, v / 0x1_0000 % 0x100, v / 0x100_0000]
  }

  /** Decoding a little-endian encoding gives the value back. */
  lemma DecodeEncode16(v: nat)
    requires v < 0x1_0000
    ensures ToUint16(EncodeUint16(v), 0) == v
  {
  }

  /** Encoding a decoded value gives the two bytes back: no two byte pairs
      decode to the same value. */
  lemma EncodeDecode16(buf: seq<Byte>, off: nat)
    requires off + 2 <= |buf|
    ensures EncodeUint16(ToUint16(buf, off)) == buf[off..off + 2]
  {
  }

  lemma DecodeEncode32(v: nat)
    requires v < 0x1_0000_0000
    ensures ToUint32(EncodeUint32(v), 0) == v
  {
    var w := v / 0x100;
    assert v == w * 0x100 + v % 0x100;
    assert w == (w / 0x100) * 0x100 + w % 0x100;
    assert w / 0x100 == v / 0x1_0000;
    assert v / 0x1_0000 == (v / 0x100_0000) * 0x100 + v / 0x1_0000 % 0x100;
  }

  lemma EncodeDecode32(buf: seq<Byte>, off: nat)
    requires off + 4 <= |buf|
    ensures EncodeUint32(ToUint32(buf, off)) == buf[off..off + 4]
  {
    var b0, b1, b2, b3 := ToInt(buf[off]), ToInt(buf[off + 1]), ToInt(buf[off + 2]), ToInt(buf[off + 3]);
    var v := ToUint32(buf, off);
    var w := b3 * 0x1_0000 + b2 * 0x100 + b1;
    assert v == w * 0x100 + b0;
    assert v % 0x100 == b0 && v / 0x100 == w;
    assert w % 0x100 == b1 && w / 0x100 == b3 * 0x100 + b2;
    assert v / 0x1_0000 == w / 0x100;
    assert v / 0x100_0000 == (b3 * 0x100 + b2) / 0x100 == b3;
  }
}
