/** The two packed records at the start of a BMP file: the 14-byte
    BITMAPFILEHEADER and the 40-byte BITMAPINFOHEADER that follows it
    (host/tools/bitmap.c, lines 21-45). The records are packed to one byte,
    so each field sits at a fixed offset, little-endian. */
module BitmapHeaders {
  import opened LittleEndian

  const FileHeaderSize: nat := 14
  const InfoHeaderSize: nat := 40
  /** Where the pixels start in a file whose headers are back to back. */
  const HeadersSize: nat := 54

  /** The file type "BM", as the 16-bit value of the first two bytes. */
  const Magic: U16 := 0x4D42

  datatype FileHeader = FileHeader(
    bfType: U16,       // bytes 0-1
    bfSize: U32,       // bytes 2-5
    bfReserved1: U16,  // bytes 6-7
    bfReserved2: U16,  // bytes 8-9
    bOffBits: U32)     // bytes 10-13: where the pixels start

  datatype InfoHeader = InfoHeader(
    biSize: U32,           // bytes 0-3
    biWidth: U32,          // bytes 4-7
    biHeight: U32,         // bytes 8-11
    biPlanes: U16,         // bytes 12-13
    biBitCount: U16,       // bytes 14-15
    biCompression: U32,    // bytes 16-19
    biSizeImage: U32,      // bytes 20-23: the number of pixel bytes
    biXPelsPerMeter: U32,  // bytes 24-27
    biYPelsPerMeter: U32,  // bytes 28-31
    biClrUsed: U32,        // bytes 32-35
    biClrImportant: U32)   // bytes 36-39

  /** The bytes `fwrite` emits for a file header. */
  function EncodeFileHeader(h: FileHeader): (r: seq<Byte>)
    ensures |r| == FileHeaderSize
  {
    EncodeU16(h.bfType) + EncodeU32(h.bfSize) + EncodeU16(h.bfReserved1)
    + EncodeU16(h.bfReserved2) + EncodeU32(h.bOffBits)
  }

  /** The file header `fread` fills from the first 14 bytes of `s`. */
  function DecodeFileHeader(s: seq<Byte>): FileHeader
    requires |s| >= FileHeaderSize
  {
    FileHeader(DecodeU16(s, 0), DecodeU32(s, 2), DecodeU16(s, 6), DecodeU16(s, 8), DecodeU32(s, 10))
  }

  /** The header read from 14 bytes is the one that is written as those
      bytes. */
  lemma EncodeDecodeFileHeader(s: seq<Byte>)
    requires |s| >= FileHeaderSize
    ensures EncodeFileHeader(DecodeFileHeader(s)) == s[..FileHeaderSize]
  {
    EncodeDecodeU16(s, 0);
    EncodeDecodeU32(s, 2);
    EncodeDecodeU16(s, 6);
    EncodeDecodeU16(s, 8);
    EncodeDecodeU32(s, 10);
    assert s[..FileHeaderSize] == s[0..2] + s[2..6] + s[6..8] + s[8..10] + s[10..14];
  }

  /** Reading back a written file header, whatever follows it, gives the same
      header. */
  lemma DecodeEncodeFileHeader(h: FileHeader, rest: seq<Byte>)
    ensures DecodeFileHeader(EncodeFileHeader(h) + rest) == h
  {
    var s := EncodeFileHeader(h) + rest;
    assert DecodeU16(s, 0) == DecodeU16(EncodeU16(h.bfType), 0);
    assert DecodeU32(s, 2) == DecodeU32(EncodeU32(h.bfSize), 0);
    assert DecodeU16(s, 6) == DecodeU16(EncodeU16(h.bfReserved1), 0);
    assert DecodeU16(s, 8) == DecodeU16(EncodeU16(h.bfReserved2), 0);
    assert DecodeU32(s, 10) == DecodeU32(EncodeU32(h.bOffBits), 0);
    DecodeEncodeU16(h.bfType);
    DecodeEncodeU32(h.bfSize);
    DecodeEncodeU16(h.bfReserved1);
    DecodeEncodeU16(h.bfReserved2);
    DecodeEncodeU32(h.bOffBits);
  }

  /** Different file headers are written as different bytes. */
  lemma EncodeFileHeaderInjective(h: FileHeader, k: FileHeader)
    requires EncodeFileHeader(h) == EncodeFileHeader(k)
    ensures h == k
  {
    DecodeEncodeFileHeader(h, []);
    DecodeEncodeFileHeader(k, []);
  }

  /** The type field is "BM" exactly when the file starts with 'B', 'M'. */
  lemma MagicBytes(s: seq<Byte>)
    requires |s| >= FileHeaderSize
    ensures DecodeFileHeader(s).bfType == Magic <==> s[0] == 'B' as int && s[1] == 'M' as int
  {
  }

  /** The bytes `fwrite` emits for an info header. */
  function EncodeInfoHeader(h: InfoHeader): (r: seq<Byte>)
    ensures |r| == InfoHeaderSize
  {
    EncodeU32(h.biSize) + EncodeU32(h.biWidth) + EncodeU32(h.biHeight)
    + EncodeU16(h.biPlanes) + EncodeU16(h.biBitCount) + EncodeU32(h.biCompression)
    + EncodeU32(h.biSizeImage) + EncodeU32(h.biXPelsPerMeter) + EncodeU32(h.biYPelsPerMeter)
    + EncodeU32(h.biClrUsed) + EncodeU32(h.biClrImportant)
  }

  /** The info header `fread` fills from the 40 bytes of `s` at index `at`. */
  function DecodeInfoHeader(s: seq<Byte>, at: nat): InfoHeader
    requires at + InfoHeaderSize <= |s|
  {
    InfoHeader(DecodeU32(s, at), DecodeU32(s, at + 4), DecodeU32(s, at + 8),
               DecodeU16(s, at + 12), DecodeU16(s, at + 14), DecodeU32(s, at + 16),
               DecodeU32(s, at + 20), DecodeU32(s, at + 24), DecodeU32(s, at + 28),
               DecodeU32(s, at + 32), DecodeU32(s, at + 36))
  }

  /** The header read from 40 bytes is the one that is written as those
      bytes. */
  lemma EncodeDecodeInfoHeader(s: seq<Byte>, at: nat)
    requires at + InfoHeaderSize <= |s|
    ensures EncodeInfoHeader(DecodeInfoHeader(s, at)) == s[at..at + InfoHeaderSize]
  {
    EncodeDecodeU32(s, at);
    EncodeDecodeU32(s, at + 4);
    EncodeDecodeU32(s, at + 8);
    EncodeDecodeU16(s, at + 12);
    EncodeDecodeU16(s, at + 14);
    EncodeDecodeU32(s, at + 16);
    EncodeDecodeU32(s, at + 20);
    EncodeDecodeU32(s, at + 24);
    EncodeDecodeU32(s, at + 28);
    EncodeDecodeU32(s, at + 32);
    EncodeDecodeU32(s, at + 36);
    assert s[at..at + InfoHeaderSize]
        == s[at..at + 4] + s[at + 4..at + 8] + s[at + 8..at + 12] + s[at + 12..at + 14]
           + s[at + 14..at + 16] + s[at + 16..at + 20] + s[at + 20..at + 24] + s[at + 24..at + 28]
           + s[at + 28..at + 32] + s[at + 32..at + 36] + s[at + 36..at + 40];
  }

  /** Reading back a written info header, whatever precedes and follows it,
      gives the same header. */
  lemma DecodeEncodeInfoHeader(pre: seq<Byte>, h: InfoHeader, rest: seq<Byte>)
    ensures DecodeInfoHeader(pre + EncodeInfoHeader(h) + rest, |pre|) == h
  {
    DecodeInfoFront(pre, h, rest);
    DecodeInfoBack(pre, h, rest);
  }

  /** The fields in bytes 0-19 of a written info header read back. */
  lemma DecodeInfoFront(pre: seq<Byte>, h: InfoHeader, rest: seq<Byte>)
    ensures var s, at := pre + EncodeInfoHeader(h) + rest, |pre|;
      DecodeU32(s, at) == h.biSize && DecodeU32(s, at + 4) == h.biWidth
      && DecodeU32(s, at + 8) == h.biHeight && DecodeU16(s, at + 12) == h.biPlanes
      && DecodeU16(s, at + 14) == h.biBitCount && DecodeU32(s, at + 16) == h.biCompression
  {
    var s, at := pre + EncodeInfoHeader(h) + rest, |pre|;
    assert DecodeU32(s, at) == DecodeU32(EncodeU32(h.biSize), 0);
    assert DecodeU32(s, at + 4) == DecodeU32(EncodeU32(h.biWidth), 0);
    assert DecodeU32(s, at + 8) == DecodeU32(EncodeU32(h.biHeight), 0);
    assert DecodeU16(s, at + 12) == DecodeU16(EncodeU16(h.biPlanes), 0);
    assert DecodeU16(s, at + 14) == DecodeU16(EncodeU16(h.biBitCount), 0);
    assert DecodeU32(s, at + 16) == DecodeU32(EncodeU32(h.biCompression), 0);
    DecodeEncodeU32(h.biSize);
    DecodeEncodeU32(h.biWidth);
    DecodeEncodeU32(h.biHeight);
    DecodeEncodeU16(h.biPlanes);
    DecodeEncodeU16(h.biBitCount);
    DecodeEncodeU32(h.biCompression);
  }

  /** The fields in bytes 20-39 of a written info header read back. */
  lemma DecodeInfoBack(pre: seq<Byte>, h: InfoHeader, rest: seq<Byte>)
    ensures var s, at := pre + EncodeInfoHeader(h) + rest, |pre|;
      DecodeU32(s, at + 20) == h.biSizeImage && DecodeU32(s, at + 24) == h.biXPelsPerMeter
      && DecodeU32(s, at + 28) == h.biYPelsPerMeter && DecodeU32(s, at + 32) == h.biClrUsed
      && DecodeU32(s, at + 36) == h.biClrImportant
  {
    var s, at := pre + EncodeInfoHeader(h) + rest, |pre|;
    assert DecodeU32(s, at + 20) == DecodeU32(EncodeU32(h.biSizeImage), 0);
    assert DecodeU32(s, at + 24) == DecodeU32(EncodeU32(h.biXPelsPerMeter), 0);
    assert DecodeU32(s, at + 28) == DecodeU32(EncodeU32(h.biYPelsPerMeter), 0);
    assert DecodeU32(s, at + 32) == DecodeU32(EncodeU32(h.biClrUsed), 0);
    assert DecodeU32(s, at + 36) == DecodeU32(EncodeU32(h.biClrImportant), 0);
    DecodeEncodeU32(h.biSizeImage);
    DecodeEncodeU32(h.biXPelsPerMeter);
    DecodeEncodeU32(h.biYPelsPerMeter);
    DecodeEncodeU32(h.biClrUsed);
    DecodeEncodeU32(h.biClrImportant);
  }

  /** Different info headers are written as different bytes. */
  lemma EncodeInfoHeaderInjective(h: InfoHeader, k: InfoHeader)
    requires EncodeInfoHeader(h) == EncodeInfoHeader(k)
    ensures h == k
  {
    DecodeEncodeInfoHeader([], h, []);
    DecodeEncodeInfoHeader([], k, []);
  }
}
