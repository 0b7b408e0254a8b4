/** Bytes and the little-endian 16- and 32-bit fields of the packed BMP
    headers.

    Bytes are integers in 0..255, so that field values are plain integers.
    A field holds the raw unsigned value of its bytes. The C code declares the
    fields as signed `short` and `int`; `Signed32` gives the value of an `int`
    field as the C code passes it on to `fseek`, `malloc` and the swap loop. */
module LittleEndian {

  type Byte = x: int | 0 <= x < 0x100
  type U16 = x: int | 0 <= x < 0x1_0000
  type U32 = x: int | 0 <= x < 0x1_0000_0000

  /** The two bytes of a 16-bit field, low byte first. */
  function EncodeU16(x: U16): (r: seq<Byte>)
    ensures |r| == 2
  {
    [x % 0x100, x / 0x100]
  }

  /** The 16-bit field stored at index i, low byte first. */
  function DecodeU16(s: seq<Byte>, i: nat): U16
    requires i + 2 <= |s|
  {
    s[i] as int + 0x100 * (s[i + 1] as int)
  }

  lemma DecodeEncodeU16(x: U16)
    ensures DecodeU16(EncodeU16(x), 0) == x
  {
  }

  lemma EncodeDecodeU16(s: seq<Byte>, i: nat)
    requires i + 2 <= |s|
    ensures EncodeU16(DecodeU16(s, i)) == s[i..i + 2]
  {
  }

  /** The four bytes of a 32-bit field: the low half first, then the high
      half, each low byte first. */
  function EncodeU32(x: U32): (r: seq<Byte>)
    ensures |r| == 4
  {
    EncodeU16(x % 0x1_0000) + EncodeU16(x / 0x1_0000)
  }

  /** The 32-bit field stored at index i, low byte first. */
  function DecodeU32(s: seq<Byte>, i: nat): U32
    requires i + 4 <= |s|
  {
    DecodeU16(s, i) + 0x1_0000 * DecodeU16(s, i + 2)
  }

  lemma DecodeEncodeU32(x: U32)
    ensures DecodeU32(EncodeU32(x), 0) == x
  {
    var lo, hi := x % 0x1_0000, x / 0x1_0000;
    var s := EncodeU32(x);
    assert DecodeU16(s, 0) == DecodeU16(EncodeU16(lo), 0);
    assert DecodeU16(s, 2) == DecodeU16(EncodeU16(hi), 0);
    DecodeEncodeU16(lo);
    DecodeEncodeU16(hi);
  }

  lemma EncodeDecodeU32(s: seq<Byte>, i: nat)
    requires i + 4 <= |s|
    ensures EncodeU32(DecodeU32(s, i)) == s[i..i + 4]
  {
    var lo, hi := DecodeU16(s, i), DecodeU16(s, i + 2);
    EncodeDecodeU16(s, i);
    EncodeDecodeU16(s, i + 2);
    assert DecodeU32(s, i) % 0x1_0000 == lo && DecodeU32(s, i) / 0x1_0000 == hi;
    assert s[i..i + 4] == s[i..i + 2] + s[i + 2..i + 4];
  }

  /** A 32-bit field read as the C `int` it is declared as. */
  function Signed32(x: U32): (r: int)
    ensures -0x8000_0000 <= r < 0x8000_0000
    ensures 0 <= x < 0x8000_0000 ==> r == x
    ensures r < 0 <==> x >= 0x8000_0000
  {
    if x < 0x8000_0000 then x else x - 0x1_0000_0000
  }
}
