/** `LoadBitmapFile` and `ReloadBitmapFile` (host/tools/bitmap.c, lines
    51-108 and 114-149) as functions from the bytes of a file to the headers
    and pixels read from it, and back.

    Opening the file becomes an `Option`: `None` is a file that cannot be
    opened. The C code ignores how many bytes `fread` delivers; `Loadable`
    says that every read it makes comes back full and that its swap loop stays
    inside the buffer, and `Load` is defined for those files. */
module BitmapCodec {
  import opened Wrappers
  import opened LittleEndian
  import opened BitmapHeaders
  import opened ChannelSwap

  /** Why `LoadBitmapFile` returned NULL, with the header records it had
      already filled in for the caller by then. */
  datatype LoadError =
    | CannotOpen                                               // fopen failed
    | NotABitmap(fileHeader: FileHeader)                       // the type field is not "BM"
    | OutOfMemory(fileHeader: FileHeader, infoHeader: InfoHeader)  // malloc failed

  /** What `LoadBitmapFile` hands back: the two headers it filled in and the
      pixel buffer, with the channels in RGB order. */
  datatype Bitmap = Bitmap(fileHeader: FileHeader, infoHeader: InfoHeader, pixels: seq<Byte>)

  /** The number of pixel bytes, as the C `int` biSizeImage. */
  function ImageSize(ih: InfoHeader): (n: int)
    ensures -0x8000_0000 <= n < 0x8000_0000
    ensures ih.biSizeImage < 0x8000_0000 ==> n == ih.biSizeImage
  {
    Signed32(ih.biSizeImage)
  }

  /** The file position the pixels are read from. `fseek` moves to bOffBits;
      a negative offset (as a C `int`) makes it fail, and the position stays
      where the two header reads left it, at byte 54. */
  function PixelStart(fh: FileHeader): (p: nat)
    ensures fh.bOffBits < 0x8000_0000 ==> p == fh.bOffBits
    ensures fh.bOffBits >= 0x8000_0000 ==> p == HeadersSize
  {
    var off := Signed32(fh.bOffBits);
    if off < 0 then HeadersSize else off
  }

  /** The files `Load` models: the file header read is full; for a bitmap the
      info header read is full too, a pixel read of one byte or more is full,
      and the pixel buffer holds whole triplets, so that the swap loop stays
      inside it. A read of no bytes cannot be short, wherever `fseek` put the
      file position. */
  predicate Loadable(f: seq<Byte>)
  {
    |f| >= FileHeaderSize &&
    (DecodeFileHeader(f).bfType == Magic ==>
       |f| >= HeadersSize &&
       var size := ImageSize(DecodeInfoHeader(f, FileHeaderSize));
       size >= 0 ==> (size > 0 ==> PixelStart(DecodeFileHeader(f)) + size <= |f|) && size % 3 == 0)
  }

  /** The `size` bytes `fread` delivers from position `start`: none when
      `size` is zero. */
  function PixelBytes(f: seq<Byte>, start: nat, size: nat): (r: seq<Byte>)
    requires size > 0 ==> start + size <= |f|
    ensures |r| == size
    ensures forall i | 0 <= i < size :: r[i] == f[start + i]
  {
    if size == 0 then [] else f[start..start + size]
  }

  /** `LoadBitmapFile`: read the file header and reject anything that is not
      "BM"; read the info header; take biSizeImage bytes from the pixel start
      and swap them from BGR to RGB. A negative biSizeImage becomes a huge
      `size_t` request, which `malloc` refuses. */
  function Load(file: Option<seq<Byte>>): (r: Result<Bitmap, LoadError>)
    requires file.Some? ==> Loadable(file.value)
    ensures r == Failure(CannotOpen) <==> file.None?
    ensures (r.Failure? && r.error.NotABitmap?) <==>
              file.Some? && !(file.value[0] == 'B' as int && file.value[1] == 'M' as int)
    ensures (r.Failure? && r.error.OutOfMemory?) <==>
              && file.Some? && DecodeFileHeader(file.value).bfType == Magic
              && DecodeInfoHeader(file.value, FileHeaderSize).biSizeImage >= 0x8000_0000
    ensures r.Success? ==> |r.value.pixels| == ImageSize(r.value.infoHeader)
  {
    match file
    case None => Failure(CannotOpen)
    case Some(f) =>
      var fh := DecodeFileHeader(f);
      MagicBytes(f);
      if fh.bfType != Magic then Failure(NotABitmap(fh))
      else
        var ih := DecodeInfoHeader(f, FileHeaderSize);
        var size := ImageSize(ih);
        if size < 0 then Failure(OutOfMemory(fh, ih))
        else
          Success(Bitmap(fh, ih, SwapRB(PixelBytes(f, PixelStart(fh), size))))
  }

  /** `ReloadBitmapFile`: write the file header, the info header, and then
      biSizeImage bytes of the buffer swapped back from RGB to BGR. The
      pixels always follow the headers directly, whatever bOffBits says. */
  function Store(b: Bitmap): (r: seq<Byte>)
    requires 0 <= ImageSize(b.infoHeader) <= |b.pixels|
    requires ImageSize(b.infoHeader) % 3 == 0
    ensures |r| == HeadersSize + ImageSize(b.infoHeader)
    ensures DecodeFileHeader(r) == b.fileHeader
    ensures DecodeInfoHeader(r, FileHeaderSize) == b.infoHeader
    ensures Swapped(b.pixels[..ImageSize(b.infoHeader)], r[HeadersSize..])
  {
    var size := ImageSize(b.infoHeader);
    var px := SwapRB(b.pixels[..size]);
    HeadersThenPixels(b.fileHeader, b.infoHeader, px);
    EncodeFileHeader(b.fileHeader) + EncodeInfoHeader(b.infoHeader) + px
  }

  /** A file written as the two headers and then the pixels reads back as
      those headers, with the pixels from byte 54 on. */
  lemma HeadersThenPixels(fh: FileHeader, ih: InfoHeader, px: seq<Byte>)
    ensures DecodeFileHeader(EncodeFileHeader(fh) + EncodeInfoHeader(ih) + px) == fh
    ensures DecodeInfoHeader(EncodeFileHeader(fh) + EncodeInfoHeader(ih) + px, FileHeaderSize) == ih
    ensures (EncodeFileHeader(fh) + EncodeInfoHeader(ih) + px)[HeadersSize..] == px
  {
    var a, c := EncodeFileHeader(fh), EncodeInfoHeader(ih);
    assert a + c + px == a + (c + px);
    DecodeEncodeFileHeader(fh, c + px);
    DecodeEncodeInfoHeader(a, ih, px);
  }

  // ---------------------------------------------------------------------
  // What Load reads

  /** A file that is not "BM" is rejected on its first 14 bytes alone: no
      info header and no pixels are read, and files that share those bytes
      fail alike. */
  lemma LoadRejectsOnFileHeader(f: seq<Byte>, g: seq<Byte>)
    requires Loadable(f) && Loadable(g) && f[..FileHeaderSize] == g[..FileHeaderSize]
    requires DecodeFileHeader(f).bfType != Magic
    ensures Load(Some(f)).Failure? && Load(Some(f)).error.NotABitmap?
    ensures Load(Some(g)) == Load(Some(f))
  {
    assert forall i | 0 <= i < FileHeaderSize :: f[i] == f[..FileHeaderSize][i];
  }

  /** On the two failures after a read, the caller's records hold what was
      read: the file header from bytes 0-13 and, once the info header has
      been read, the info header from bytes 14-53. */
  lemma LoadFailureHeaders(f: seq<Byte>)
    requires Loadable(f) && Load(Some(f)).Failure?
    ensures Load(Some(f)).error.NotABitmap? ==>
              EncodeFileHeader(Load(Some(f)).error.fileHeader) == f[..FileHeaderSize]
    ensures Load(Some(f)).error.OutOfMemory? ==>
              && EncodeFileHeader(Load(Some(f)).error.fileHeader) == f[..FileHeaderSize]
              && EncodeInfoHeader(Load(Some(f)).error.infoHeader) == f[FileHeaderSize..HeadersSize]
  {
    EncodeDecodeFileHeader(f);
    if Load(Some(f)).error.OutOfMemory? {
      EncodeDecodeInfoHeader(f, FileHeaderSize);
    }
  }

  /** A loaded bitmap holds the two decoded headers and the swap of the
      biSizeImage bytes from the pixel start. */
  lemma LoadSuccess(f: seq<Byte>)
    requires Loadable(f) && Load(Some(f)).Success?
    ensures var b := Load(Some(f)).value;
            var start, size := PixelStart(b.fileHeader), ImageSize(b.infoHeader);
            && |f| >= HeadersSize
            && b.fileHeader == DecodeFileHeader(f)
            && b.infoHeader == DecodeInfoHeader(f, FileHeaderSize)
            && 0 <= size && size % 3 == 0 && (size > 0 ==> start + size <= |f|)
            && b.pixels == SwapRB(PixelBytes(f, start, size))
  {
  }

  /** The headers of a loaded bitmap are the records whose bytes are the
      first 14 and the next 40 bytes of the file. */
  lemma LoadHeaders(f: seq<Byte>)
    requires Loadable(f) && Load(Some(f)).Success?
    ensures EncodeFileHeader(Load(Some(f)).value.fileHeader) == f[..FileHeaderSize]
    ensures EncodeInfoHeader(Load(Some(f)).value.infoHeader) == f[FileHeaderSize..HeadersSize]
  {
    LoadSuccess(f);
    EncodeDecodeFileHeader(f);
    EncodeDecodeInfoHeader(f, FileHeaderSize);
  }

  /** The pixels of a loaded bitmap are the biSizeImage bytes from the pixel
      start, with each triplet swapped; there are none when biSizeImage is
      zero, wherever bOffBits points. */
  lemma LoadTakesPixels(f: seq<Byte>)
    requires Loadable(f) && Load(Some(f)).Success?
    ensures var b := Load(Some(f)).value;
            var start, size := PixelStart(b.fileHeader), ImageSize(b.infoHeader);
            && 0 <= size
            && (size > 0 ==> start + size <= |f| && Swapped(f[start..start + size], b.pixels))
            && (size == 0 ==> b.pixels == [])
  {
    LoadSuccess(f);
  }

  /** Only the headers and the pixel bytes matter: two files that agree on
      their first 54 bytes and on the pixel bytes load the same, whatever
      lies between the headers and bOffBits or after the pixels. */
  lemma LoadIgnoresGap(f: seq<Byte>, g: seq<Byte>)
    requires Loadable(f) && Load(Some(f)).Success?
    requires Loadable(g) && |g| >= HeadersSize && f[..HeadersSize] == g[..HeadersSize]
    requires var b := Load(Some(f)).value;
             var start, size := PixelStart(b.fileHeader), ImageSize(b.infoHeader);
             size > 0 ==> start + size <= |g| && f[start..start + size] == g[start..start + size]
    ensures Load(Some(g)) == Load(Some(f))
  {
    LoadSuccess(f);
    SameHeaders(f, g);
  }

  /** Files that agree on their first 54 bytes have the same headers. */
  lemma SameHeaders(f: seq<Byte>, g: seq<Byte>)
    requires |f| >= HeadersSize && |g| >= HeadersSize && f[..HeadersSize] == g[..HeadersSize]
    ensures DecodeFileHeader(f) == DecodeFileHeader(g)
    ensures DecodeInfoHeader(f, FileHeaderSize) == DecodeInfoHeader(g, FileHeaderSize)
  {
    assert forall i | 0 <= i < HeadersSize :: f[i] == f[..HeadersSize][i];
  }

  /** With biSizeImage zero every "BM" file with both headers loads, even
      when bOffBits points past its end: the read of no bytes is not short,
      the loop never runs and the buffer is empty. */
  lemma LoadEmptyImage(f: seq<Byte>)
    requires |f| >= HeadersSize && DecodeFileHeader(f).bfType == Magic
    requires DecodeInfoHeader(f, FileHeaderSize).biSizeImage == 0
    ensures Loadable(f)
    ensures Load(Some(f)).Success?
    ensures Load(Some(f)).value.pixels == []
  {
    MagicBytes(f);
  }

  // ---------------------------------------------------------------------
  // Round trips

  /** The pixel-level round trip: the store pass on a loaded buffer gives
      back the pixel bytes of the file. */
  lemma StorePassRestoresPixels(f: seq<Byte>)
    requires Loadable(f) && Load(Some(f)).Success?
    ensures var b := Load(Some(f)).value;
            var start, size := PixelStart(b.fileHeader), ImageSize(b.infoHeader);
            SwapRB(b.pixels) == PixelBytes(f, start, size)
  {
    var b := Load(Some(f)).value;
    var start, size := PixelStart(b.fileHeader), ImageSize(b.infoHeader);
    LoadSuccess(f);
    var px := PixelBytes(f, start, size);
    assert b.pixels == SwapRB(px);
    SwapRBInvolution(px);
    assert SwapRB(b.pixels) == px;
  }

  /** Storing what was loaded reproduces the file exactly when the file ends
      with the pixels and the bytes from 54 on are the pixel bytes: Store
      always puts the pixels right after the headers. */
  lemma StoreOfLoad(f: seq<Byte>)
    requires Loadable(f) && Load(Some(f)).Success?
    ensures var b := Load(Some(f)).value;
            var start, size := PixelStart(b.fileHeader), ImageSize(b.infoHeader);
            Store(b) == f <==>
              |f| == HeadersSize + size && f[HeadersSize..] == PixelBytes(f, start, size)
  {
    var b := Load(Some(f)).value;
    var start, size := PixelStart(b.fileHeader), ImageSize(b.infoHeader);
    LoadSuccess(f);
    StorePassRestoresPixels(f);
    var px := PixelBytes(f, start, size);
    StoreLayout(b, f, px);
    var r := Store(b);
    if |f| == HeadersSize + size && f[HeadersSize..] == px {
      assert f == f[..HeadersSize] + f[HeadersSize..];
    }
    if r == f {
      assert f[HeadersSize..] == r[HeadersSize..];
    }
  }

  /** Store writes the bytes the headers were read from, then the pixels
      swapped back. */
  lemma StoreLayout(b: Bitmap, f: seq<Byte>, px: seq<Byte>)
    requires |f| >= HeadersSize
    requires b.fileHeader == DecodeFileHeader(f)
    requires b.infoHeader == DecodeInfoHeader(f, FileHeaderSize)
    requires 0 <= ImageSize(b.infoHeader) == |b.pixels| && |b.pixels| % 3 == 0
    requires SwapRB(b.pixels) == px
    ensures Store(b) == f[..HeadersSize] + px
  {
    EncodeDecodeFileHeader(f);
    EncodeDecodeInfoHeader(f, FileHeaderSize);
    assert f[..HeadersSize] == f[..FileHeaderSize] + f[FileHeaderSize..HeadersSize];
    assert b.pixels[..ImageSize(b.infoHeader)] == b.pixels;
  }

  /** The round trip for a file whose pixels follow the headers directly
      (bOffBits 54) and end the file. */
  lemma StoreOfLoadRoundTrip(f: seq<Byte>)
    requires Loadable(f) && Load(Some(f)).Success?
    requires PixelStart(Load(Some(f)).value.fileHeader) == HeadersSize
    requires |f| == HeadersSize + ImageSize(Load(Some(f)).value.infoHeader)
    ensures Store(Load(Some(f)).value) == f
  {
    StoreOfLoad(f);
  }

  /** Loading what was stored gives back the headers and the pixels, for a
      "BM" bitmap whose bOffBits points just past the headers. */
  lemma LoadOfStore(b: Bitmap)
    requires b.fileHeader.bfType == Magic && PixelStart(b.fileHeader) == HeadersSize
    requires 0 <= ImageSize(b.infoHeader) == |b.pixels| && |b.pixels| % 3 == 0
    ensures Loadable(Store(b))
    ensures Load(Some(Store(b))) == Success(b)
  {
    var r := Store(b);
    var size := ImageSize(b.infoHeader);
    assert b.pixels[..size] == b.pixels;
    var px := r[HeadersSize..];
    assert r[HeadersSize..HeadersSize + size] == px;
    SwappedIsSwapRB(b.pixels, px);
    SwapRBInvolution(b.pixels);
  }
}
