# GF(2^8) helpers and BMP codec of the AES host tools

This project models two small, sequential cores of the AES host tools and
proves properties of them in Dafny.

* **Field arithmetic** (`host/tools/helper_functions.c`). `gmult` multiplies
  two bytes in GF(2^8) modulo m(x) = x^8 + x^4 + x^3 + x + 1, as in section
  4.2 of FIPS 197. `coef_mult` multiplies two 4-byte words as polynomials
  with byte coefficients modulo x^4 + 1, as in section 4.3 of FIPS 197.
  - Module `GF256`:
    - `GMul` is the reference product: the XOR, over the set bits i of `b`,
      of `a` multiplied by x i times, where each step is `xtime`.
    - `GMult` is the C loop. Its invariants prove that it computes `GMul`.
    - The field identities are proved on `Poly`, a polynomial over GF(2) with
      eight coefficients. `GMulIsMul` carries them over to bytes.
  - Module `WordMult`:
    - `CoefMult` is `coef_mult`, one line per output coefficient.
    - `Reduced` multiplies the two word polynomials out and folds x^4 onto 1.
- **Bitmap codec** (`host/tools/bitmap.c`). `LoadBitmapFile` and
  `ReloadBitmapFile` are modelled as pure functions over the bytes of a
  file, with the file I/O removed.
  - `LittleEndian`: the little-endian 16- and 32-bit fields.
  - `BitmapHeaders`: the packed 14-byte BITMAPFILEHEADER and 40-byte
    BITMAPINFOHEADER records.
  - `ChannelSwap`: the BGR/RGB triplet swap. It appears as a function on
    sequences and as an in-place array method with loop invariants.
  - `BitmapCodec`: `Load` and `Store`, with their round trips.

Bytes are `bv8` in the field arithmetic, where the C code shifts and masks
them. They are integers 0..255 in the bitmap codec, where they are combined
into field values.

Behaviour of the C code that the model makes explicit:

- A load followed by a store does not give back every file. The code writes
  the pixels straight after the 54 header bytes, and writes only biSizeImage
  of them. So the round trip holds exactly when the bytes from offset 54 on
  are the pixel bytes and end the file (`BitmapCodec.StoreOfLoad`).
- The loader seeks to bOffBits, which is a C `int`.
  - A value of 2^31 or more is negative in C. `fseek` then fails, and the
    pixels are read from offset 54, where the header reads stopped
    (`BitmapCodec.PixelStart`).
  - A bOffBits past the end of the file is harmless when biSizeImage is 0,
    because the read of no bytes cannot come back short
    (`BitmapCodec.LoadEmptyImage`).
- A negative biSizeImage becomes a huge `size_t` request, which `malloc`
  refuses (`BitmapCodec.Load`).
- On the "not BM" and allocation-failure returns, the caller's header records
  already hold what was read. The two errors carry those records
  (`BitmapCodec.LoadFailureHeaders`).
- The type check compares the signed 16-bit bfType with 0x4D42. That value
  is below 2^15, so the check is the same as comparing the two raw bytes
  with 'B', 'M' (`BitmapHeaders.MagicBytes`).

## Model

| member | source | states |
|---|---|---|
| GF256.Round | host/tools/helper_functions.c:25-32 | one round of the loop: `p` gains `a` exactly when bit 0 of `b` is set; `a` becomes xtime(a), the shift left with XOR 0x1b when the high bit falls off (`ShiftXTime` proves it is multiplication by x modulo m(x)); `b` is shifted right one place |
| GF256.GMult | host/tools/helper_functions.c:20-36 | the eight-round loop returns GMul(a, b), the XOR of a·x^i over the set bits i of b; before round i, `a` holds a·x^i, `b` holds b >> i and `p` the sum over the bits below i |
| GF256.XTimeByte | host/tools/helper_functions.c:29-31 | the update of `a` in one round: shift left, and XOR 0x1b when the high bit was set; `ShiftXTime` states that this is multiplication by x modulo m(x), and `XTimeIsGMulByX` that it equals gmult(a, 0x02) |
| GF256.ShiftXTime | host/tools/helper_functions.c:29-31 | shifting left and XOR-ing 0x1b when the high bit falls off is multiplication by x modulo m(x) |
| GF256.XTimeIsGMulByX | host/tools/helper_functions.c:29-31 | the update of `a` in one round equals gmult(a, 0x02) |
| GF256.XTimesByteIsXTimes | host/tools/helper_functions.c:24-33 | after i rounds, `a` is the polynomial a0 multiplied by x i times, reduced modulo m(x) |
| GF256.ToPolyXor | host/tools/helper_functions.c:25-27 | `p ^= a` is addition of polynomials over GF(2) |
| GF256.GMulIsMul | host/tools/helper_functions.c:20-36 | the byte product is the product of the two polynomials modulo m(x) |
| GF256.MulCommutes | host/tools/helper_functions.c:20-36 | the polynomial product modulo m(x) is commutative |
| GF256.MulDistributes | host/tools/helper_functions.c:24-33 | the polynomial product distributes over addition |
| GF256.GMulZero | host/tools/helper_functions.c:20-36 | gmult(a, 0) == 0 for every byte a |
| GF256.GMulOne | host/tools/helper_functions.c:20-36 | gmult(a, 1) == a for every byte a |
| GF256.GMulCommutes | host/tools/helper_functions.c:20-36 | gmult(a, b) == gmult(b, a) for all 256 × 256 pairs |
| GF256.GMulDistributes | host/tools/helper_functions.c:24-33 | gmult(a, b ^ c) == gmult(a, b) ^ gmult(a, c) for all bytes |
| GF256.GMulByThree | host/tools/helper_functions.c:20-36 | gmult(a, 0x03) is xtime(a) ^ a, the MixColumns factor {03} |
| GF256.VectorMul | host/tools/helper_functions.c:20-36 | gmult(0x57, 0x83) == 0xc1 (FIPS 197 section 4.2) |
| GF256.VectorXTime | host/tools/helper_functions.c:29-31 | 0x57 multiplied by x 1-4 times is ae, 47, 8e, 07, and gmult(0x57, 0x13) == 0xfe (FIPS 197 section 4.2.1) |
| GF256.VectorInverse | host/tools/helper_functions.c:17-36 | gmult(0x53, 0xca) == 0x01, the inverse pair of the finite-field article the code cites |
| WordMult.CoefMult | host/tools/helper_functions.c:45-48 | coef_mult itself, the four lines with their indices in C order; `CoefMultIsReduced` states that it is the product modulo x^4 + 1, with `CoefMultCommutes` and `CoefMultOne` as its algebraic laws |
| WordMult.CoefMultIsReduced | host/tools/helper_functions.c:45-48 | each d[k] is the XOR of gmult(a[i], b[j]) over i + j ≡ k (mod 4): the product of the word polynomials with x^4 folded onto 1 |
| WordMult.CoefMultCommutes | host/tools/helper_functions.c:45-48 | coef_mult(a, b) == coef_mult(b, a) |
| WordMult.CoefMultOne | host/tools/helper_functions.c:45-48 | coef_mult(a, {01, 00, 00, 00}) == a |
| WordMult.VectorMixColumn | host/tools/helper_functions.c:45-48 | the MixColumns word {02, 01, 01, 03} maps the column {db, 13, 53, 45} to {8e, 4d, a1, bc} |
| WordMult.VectorMixInverse | host/tools/helper_functions.c:45-48 | the MixColumns and InvMixColumns words multiply to {01, 00, 00, 00} (FIPS 197 section 5.3.3) |
| WordMult.CoefMultArrays | host/tools/helper_functions.c:43-49 | when d aliases neither a nor b, coef_mult leaves the product in d[0..3] and a and b unchanged |
| WordMult.CoefMultIntoA | host/tools/helper_functions.c:43-49 | with d the same array as a, each line reads the coefficients the earlier lines overwrote; d[0] is the only coefficient guaranteed to be the product |
| WordMult.AliasedConstant | host/tools/helper_functions.c:43-49 | the aliased call still gives the product when b is a constant word {c, 00, 00, 00}, because each line then reads only the coefficient it overwrites |
| WordMult.AliasingDiffers | host/tools/helper_functions.c:43-49 | an input on which the aliased call differs from the product: {01,00,00,00} times {00,01,00,00} gives 0 instead of x |
| LittleEndian.DecodeEncodeU32 | host/tools/bitmap.c:21-45 | a 32-bit field written as four bytes, low byte first, reads back as the same value |
| LittleEndian.EncodeDecodeU32 | host/tools/bitmap.c:21-45 | four bytes read as a field and written again are the same bytes |
| LittleEndian.Signed32 | host/tools/bitmap.c:14-16 | a raw 32-bit field as the C `int`: values below 2^31 are unchanged, and the others are negative and lie in [-2^31, 0) |
| BitmapHeaders.DecodeFileHeader | host/tools/bitmap.c:66 | the packed `fread` of the file header: the five fields from bytes 0, 2, 6, 8 and 10, little-endian; `EncodeDecodeFileHeader` and `DecodeEncodeFileHeader` state that it inverts `EncodeFileHeader` |
| BitmapHeaders.EncodeFileHeader | host/tools/bitmap.c:133 | the packed `fwrite` of the file header: exactly 14 bytes; the same two lemmas state that it inverts `DecodeFileHeader`, and `EncodeFileHeaderInjective` that no two records share bytes |
| BitmapHeaders.EncodeDecodeFileHeader | host/tools/bitmap.c:21-29 | the file header read from the first 14 bytes is written back as exactly those bytes |
| BitmapHeaders.DecodeEncodeFileHeader | host/tools/bitmap.c:21-29 | a written file header reads back as the same record, whatever follows it |
| BitmapHeaders.EncodeFileHeaderInjective | host/tools/bitmap.c:21-29 | different file headers are written as different bytes |
| BitmapHeaders.MagicBytes | host/tools/bitmap.c:69 | bfType == 0x4D42 exactly when the file starts with the bytes 'B', 'M' |
| BitmapHeaders.DecodeInfoHeader | host/tools/bitmap.c:75 | the packed `fread` of the info header: the eleven fields at offsets 0-36 of the 40 bytes, little-endian; `EncodeDecodeInfoHeader` and `DecodeEncodeInfoHeader` state that it inverts `EncodeInfoHeader` |
| BitmapHeaders.EncodeInfoHeader | host/tools/bitmap.c:136 | the packed `fwrite` of the info header: exactly 40 bytes; the same two lemmas state that it inverts `DecodeInfoHeader`, and `EncodeInfoHeaderInjective` that no two records share bytes |
| BitmapHeaders.EncodeDecodeInfoHeader | host/tools/bitmap.c:31-45 | the info header read from 40 bytes is written back as exactly those bytes |
| BitmapHeaders.DecodeEncodeInfoHeader | host/tools/bitmap.c:31-45 | a written info header reads back as the same record at its offset, whatever precedes or follows it |
| BitmapHeaders.EncodeInfoHeaderInjective | host/tools/bitmap.c:31-45 | different info headers are written as different bytes |
| ChannelSwap.SwapRB | host/tools/bitmap.c:100-104 | for a length that is a multiple of 3, the result has the same length; in every triplet bytes 3k and 3k+2 are exchanged and byte 3k+1 is kept |
| ChannelSwap.SwappedIsSwapRB | host/tools/bitmap.c:100-104 | that triplet description determines the swapped buffer uniquely |
| ChannelSwap.SwapRBInvolution | host/tools/bitmap.c:139-143 | the store pass undoes the load pass: swapping twice gives back the original bytes |
| ChannelSwap.SwapInBounds | host/tools/bitmap.c:100-103 | every index imageIdx + 2 the loop touches is inside a buffer of n bytes if and only if n % 3 == 0 |
| ChannelSwap.SwapInPlace | host/tools/bitmap.c:100-104 | the in-place loop over an array leaves it holding SwapRB of its old contents |
| BitmapCodec.ImageSize | host/tools/bitmap.c:81 | the pixel count is biSizeImage read as a C `int`, equal to the raw field below 2^31 |
| BitmapCodec.PixelStart | host/tools/bitmap.c:78 | pixels are read from bOffBits when it is a non-negative `int`; otherwise `fseek` fails and reading continues at byte 54 |
| BitmapCodec.PixelBytes | host/tools/bitmap.c:91 | the read of `size` bytes from the pixel start delivers exactly those bytes of the file, and none when `size` is 0 |
| BitmapCodec.Load | host/tools/bitmap.c:51-108 | fails with CannotOpen exactly when the file cannot be opened, NotABitmap exactly when it does not start with "BM", and OutOfMemory exactly when biSizeImage is negative; on success the buffer holds biSizeImage bytes |
| BitmapCodec.Store | host/tools/bitmap.c:114-149 | the output is 54 + biSizeImage bytes; it decodes to the same two headers, and from byte 54 on holds the first biSizeImage buffer bytes with each triplet swapped |
| BitmapCodec.HeadersThenPixels | host/tools/bitmap.c:133-136 | bytes written as file header, info header, pixels read back as those headers, with the pixels from byte 54 on |
| BitmapCodec.LoadRejectsOnFileHeader | host/tools/bitmap.c:66-72 | a file that is not "BM" is rejected on its first 14 bytes alone: files that share those bytes fail alike, whatever follows |
| BitmapCodec.LoadFailureHeaders | host/tools/bitmap.c:66-88 | on the "not BM" failure the returned file header is the record of bytes 0-13; on the allocation failure both records are returned, encoding bytes 0-13 and 14-53 |
| BitmapCodec.LoadHeaders | host/tools/bitmap.c:66-75 | the loaded headers are the records whose encodings are bytes 0-13 and 14-53 of the file |
| BitmapCodec.LoadTakesPixels | host/tools/bitmap.c:78-104 | the loaded pixels are the biSizeImage bytes from the pixel start, inside the file, with every triplet swapped; with biSizeImage 0 there are none, wherever bOffBits points |
| BitmapCodec.LoadIgnoresGap | host/tools/bitmap.c:78-91 | files that agree on the 54 header bytes and on the pixel bytes load the same, whatever lies between them or after them |
| BitmapCodec.SameHeaders | host/tools/bitmap.c:66-75 | files that agree on their first 54 bytes decode to the same headers |
| BitmapCodec.LoadEmptyImage | host/tools/bitmap.c:78-104 | every "BM" file of at least 54 bytes with biSizeImage 0 is loadable and loads as an empty buffer, even when bOffBits points past its end |
| BitmapCodec.StorePassRestoresPixels | host/tools/bitmap.c:139-143 | the pixel-level round trip: the store pass on a loaded buffer gives back the file's pixel bytes |
| BitmapCodec.StoreOfLoad | host/tools/bitmap.c:133-146 | storing what was loaded gives the file back if and only if the file is 54 + biSizeImage bytes long and its bytes from 54 on are the pixel bytes |
| BitmapCodec.StoreOfLoadRoundTrip | host/tools/bitmap.c:133-146 | for bOffBits 54 and a file that ends with the pixels, storing what was loaded reproduces the file exactly |
| BitmapCodec.LoadOfStore | host/tools/bitmap.c:51-108 | for a "BM" bitmap with bOffBits 54 whose buffer is biSizeImage bytes, a multiple of 3, the stored file is loadable and loads back as the same headers and pixels |

## Left out

- File I/O (`fopen`, `fread`, `fseek`, `fwrite`, `fclose`) and the `printf` diagnostics are not modelled. A file is its byte sequence. A file that cannot be opened is `None`.
- `exit(1)` when `ReloadBitmapFile` cannot open its output is not modelled, because process termination is not behaviour of a function. `Store` only computes the bytes it would write.
- `malloc` failing for a non-negative size is not modelled, because it depends on the environment. The `free(NULL)` on that path has no effect, and the `bitmapImage == NULL` check after the read can never be true.
- The results of `fread` and `fwrite` are ignored by the C code. `Loadable` requires instead that the header reads, and a pixel read of one byte or more, come back full. A file too short for them is not modelled, because the C code then goes on with whatever its buffers held before the read.
- BitmapCodec.Load: only files whose pixel buffer is a multiple of 3 bytes are modelled. Otherwise the swap loop reads and writes past the end of the buffer, which is undefined behaviour. `ChannelSwap.SwapInBounds` states exactly when the loop stays in bounds.
- BitmapCodec.Store: requires the buffer to hold at least biSizeImage bytes, and biSizeImage to be a multiple of 3. Without the first, the C code reads past the end of the buffer. Without the second, a buffer of exactly biSizeImage bytes, which is what `LoadBitmapFile` allocates (bitmap.c:81), is read and written past its end. When biSizeImage is not a multiple of 3, a buffer of at least biSizeImage rounded up to a multiple of 3 bytes is in bounds in C, but it is not modelled. A negative biSizeImage is excluded because `fwrite` (bitmap.c:146) then gets it as a huge `size_t` and reads that many bytes, past the end of the buffer.
- BitmapCodec.Store: returns the written bytes, but not the swap it performs on the caller's buffer in place. `ChannelSwap.SwapInPlace` models that in-place pass on its own.
- Host endianness and `#pragma pack` are not modelled. The fields are explicit little-endian values at fixed offsets, which is the layout the packed structs have on a little-endian host.
- The header fields that neither function interprets (bfSize, the reserved fields, width, height, planes, bit count, compression and so on) are carried along unchecked, as in the C code.
- BMP features that the code does not handle are not modelled: row padding, bit depths other than 24, compression, palettes and the sign of biHeight.
- `coef_mult` with d aliasing b, or with d, a and b all the same array, is not modelled. Only the aliasing of d with a is, by `WordMult.CoefMultIntoA`.
- The AES rounds and the CUDA kernels that call `coef_mult` are not part of this model.
