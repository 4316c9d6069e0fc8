# JPEGENC: the entropy-output stage and the encoder handle

JPEGENC is a small baseline JPEG encoder for embedded and desktop targets.
This project models the parts of it in `src/JPEGENC.h` and
`src/JPEGENC.cpp`, and proves properties of them:

- **The Huffman-code output stage.** `PIL_CODE` holds three things: the
  output cursor `pOut`, the number of pending bits `iLen`, and the
  accumulator register `ulAcc`. `STORECODE` appends an `iNewLen`-bit code
  most significant bit first. When the register cannot take the code,
  `STORECODE` first moves whole bytes from the top of the register to the
  output, and it writes a `0x00` after every data byte `0xFF`. This is the
  byte stuffing of section F.1.2.3 of ITU-T T.81.
  - On 32-bit targets the drain moves one byte at a time.
  - On 64-bit targets there is a fast path. It completes a 64-bit word and
    stores all eight bytes at once, but only when a bit-smearing test shows
    that none of them is `0xFF`.

  The model is the class `EntropyOutput.PilCode`. A register is a `seq<bool>`
  of its width, most significant bit first. Module `Register` gives shifts,
  AND and OR on these sequences and ties them to unsigned values.
  - Ghost field `Data` holds the data bytes emitted so far.
  - Ghost field `Stream` holds every code bit appended so far.
  - The object invariant `Valid` says that the output holds exactly
    `Stuffed(Data)`.
  - It also says that the bits of `Data` followed by the `iLen` pending bits
    are exactly `Stream`, and that all bits below the pending ones are zero.
  - Every STORECODE step (`StoreCode64`, `StoreOverflow64`, `StoreWord`,
    `StoreCodeBytewise`, and the drain `DrainBytes`/`DrainOne`) keeps `Valid`
    and states the new `Data`, `Stream` and `iLen`. With `Valid`, these fix
    `pOut` (the output is `Stuffed(Data)`) and `ulAcc`: lemma
    `CoherentRegister` shows two registers coherent with the same bytes,
    length and stream are equal. The byte writers `PutByte` and `PutWord`
    state only what they write; their callers restore `Valid`.
  - The reference definitions the contracts are written in are in module
    `ByteStream`: `RegisterByte` and `TopBytes` are the bytes of a register
    from its most significant end, `StuffByte` and `Stuffed` are what is
    written for data bytes, `Unstuff` removes the stuffing, and `BytesBits`
    gives the bits a byte string carries. `Register.ToNat`/`FromNat` give a
    register's unsigned value, and `Register.Fits` says a code fits in its n
    low bits. `ByteOrder.ByteOf` is the `(unsigned char)(l >> k)` of the
    byte-order writers.
  - Lemma `OutputDecodes` shows what `Valid` means for a reader: removing the
    stuffed zeros from the output and then appending the pending bits gives
    back every code appended.
- **The byte-order helpers.** `WRITEMOTO16` and `WRITEMOTO32` store values
  big-endian into a byte array. `MOTOSHORT`, `MOTOLONG`, `INTELSHORT` and
  `INTELLONG` read values back (module `ByteOrder`).
- **The enumerations.** These are the error codes, subsampling modes, pixel
  types and quality levels, each with its C value and the partial inverse
  (module `Codes`).
- **The encoder handle `JPEGENC`** (module `Encoder`). The record
  `JPEGE_IMAGE` is the datatype `Image`, and the handle is the class
  `JpegEncoder`, which owns one.
  - The two `open` overloads check their arguments before changing anything.
    They zero the record, then record the destination and place the
    high-water mark 512 bytes before the end of the destination buffer.
  - `getLastError` and `close` read the record back.
  - `encodeBegin`, `addMCU` and `addFrame` forward to the engine.

  The engine lives in `jpegenc.inl`, which is not part of this model. Each
  call into it takes its effect as a parameter (`Outcome`: its result and the
  `iError` and `iDataSize` it leaves). Each call the handle itself makes, into the
  engine or into the open or close callback, is appended to the trace
  `calls`; the read, write and seek callbacks are called only inside the
  engine and appear in no trace. The session methods at
  the end of `encoder.dfy` combine these calls on a fresh handle.

Both argument rejections, a memory destination smaller than 1024 bytes and
an incomplete set of file callbacks, happen in the two `open` overloads
(src/JPEGENC.cpp:32, :53), before the record is touched.

## Model

| member | source | states |
|---|---|---|
| EntropyOutput.PilCode.constructor | src/JPEGENC.h:59-64 | A fresh accumulator has no pending bits, a zero register and no output. It satisfies the invariant that the output is the stuffed data and that data plus pending bits is the stream. |
| EntropyOutput.PilCode.StoreCode64 | src/JPEGENC.h:65-75 | The 64-bit `STORECODE` keeps the invariant, and the stream grows by exactly the n code bits. If the code fits: nothing is emitted, `pOut` is unchanged, `iLen` grows by n and the code is ORed in just below the pending bits. If it does not fit: the eight bytes of the completed word are emitted when none is 0xFF, and otherwise the floor(iLen/8) top bytes of the register are emitted. |
| EntropyOutput.PilCode.StoreOverflow64 | src/JPEGENC.h:66-74 | When the code overflows the 64-bit register, exactly one of two things happens, depending on whether the completed word has a 0xFF byte. With none: its 8 bytes are emitted and `iLen` drops by 64 - n. Otherwise: the top floor(iLen/8) bytes are emitted and `iLen` becomes iLen mod 8 + n. |
| EntropyOutput.PilCode.JoinWord | src/JPEGENC.h:67 | `ulAcc` ORed with `ulCode >> (iLen+n-64)` is the pending bits followed by the leading bits of the code that fill the register. |
| EntropyOutput.NoFFByteTest | src/JPEGENC.h:68-69 | The smear-and-mask test `ul1 == 0` returns true exactly when no byte of ul2 is 0xFF. |
| EntropyOutput.FFByteFlagsZero | src/JPEGENC.h:68-69 | The smeared flags are zero if and only if no byte of the register is 0xFF, in both directions. |
| EntropyOutput.FFByteFlags | src/JPEGENC.h:68 | `ul1 = ul2 & (ul2 >> 4); ul1 &= ul1 >> 2; ul1 &= ul1 >> 1; ul1 &= 0x0101010101010101` on a 64-bit register gives a 64-bit register; what its bits mean is stated by FlagOfByte, FFByteFlagsLowBits and FFByteFlagsZero. |
| EntropyOutput.FlagOfByte | src/JPEGENC.h:68 | The flag left at the low bit of byte j is set exactly when byte j is 0xFF. |
| EntropyOutput.FFByteFlagsLowBits | src/JPEGENC.h:68 | After masking with 0x0101010101010101 no bit other than the low bit of a byte is set. |
| EntropyOutput.SmearBits | src/JPEGENC.h:68 | After the three AND-with-shift steps, bit p is the AND of bits p-7..p of ul2. |
| EntropyOutput.LowBitOfEachByte | src/JPEGENC.h:68 | The constant 0x0101010101010101 has exactly the low bit of each byte set. |
| EntropyOutput.PilCode.StoreWord | src/JPEGENC.h:69-75 | The fast path writes the 8 bytes of ul2 unstuffed and restarts the register: the invariant holds, `pOut` advances by 8, `Data` grows by those 8 bytes, the stream by the code bits, and `iLen` becomes iLen + n - 64. |
| EntropyOutput.FastPathStuffed | src/JPEGENC.h:69-70 | Writing a word with no 0xFF byte unstuffed is the same as writing it stuffed. |
| EntropyOutput.PilCode.PutWord | src/JPEGENC.h:70 | The store of `bswap64(ul2)` writes the 8 bytes of the register most significant first and advances `pOut` by 8. No byte before the old cursor or after the new one is touched. |
| EntropyOutput.FastPathCoherent | src/JPEGENC.h:70-75 | After the word is sent and the rest of the code is placed at the top of a cleared register, data bits plus pending bits still equal the stream, and the bits below are zero. |
| EntropyOutput.PilCode.DrainBytes | src/JPEGENC.h:72-74 | The drain loop emits exactly the floor(iLen/8) top bytes of the register, each stuffed, and leaves iLen mod 8 (< 8) pending bits. The register is shifted left by the bytes sent, the stream is unchanged and the invariant holds. |
| EntropyOutput.PilCode.DrainOne | src/JPEGENC.h:73-74 | One turn of the loop: the top byte of the register is appended to `Data`, the register shifts left by 8 and `iLen` drops by 8. |
| EntropyOutput.PilCode.PutByte | src/JPEGENC.h:73-74 | Writes the byte, followed by 0x00 exactly when it is 0xFF, and advances past what it wrote. Nothing else changes. |
| EntropyOutput.LowByte | src/JPEGENC.h:73 | The `(unsigned char)` cast of a register is its value modulo 256. |
| EntropyOutput.TopByteOfRegister | src/JPEGENC.h:73 | `(unsigned char)(ulAcc >> (W-8))` is the top byte of the register. |
| EntropyOutput.DrainOneCoherent | src/JPEGENC.h:73-74 | Moving the top byte from the register to the output keeps data bits plus pending bits equal to the stream. |
| EntropyOutput.PilCode.AppendBits | src/JPEGENC.h:75 | Adding n to `iLen` and ORing `ulCode << (W-iLen)` into `ulAcc` grows the stream by exactly the n code bits and keeps the bits below the pending ones zero. |
| EntropyOutput.AppendCoherent | src/JPEGENC.h:75 | ORing a code that fits in n bits in just below the pending bits appends exactly its n bits to the stream. |
| EntropyOutput.PilCode.StoreCodeBytewise | src/JPEGENC.h:88-92 | The 32-bit `STORECODE`, which is also the 64-bit slow path. The stream grows by exactly the n code bits. If the code fits the register, nothing is written and the code is ORed in below the pending bits. Otherwise the floor(iLen/8) top bytes are emitted first and iLen mod 8 + n bits remain. |
| EntropyOutput.OutputDecodes | src/JPEGENC.h:65-75 | If the invariant holds, the output with its stuffed zeros removed, followed by the pending bits, is the concatenation of every code appended. |
| EntropyOutput.SameStreamSameBytes | src/JPEGENC.h:65-92 | The bytes emitted are determined by the code stream. Two accumulators that hold the same stream have emitted the same bytes up to the shorter length. So the fast path and the bytewise path never disagree on a byte. |
| EntropyOutput.CoherentRegister | src/JPEGENC.h:74-75 | The register is determined by the bytes emitted, the pending length and the stream: its top bits are the rest of the stream and every bit below them is zero. |
| EntropyOutput.CodeLengthBound | src/JPEGENC.h:89-92 | Any code of at most W-7 bits meets the capacity condition under which `STORECODE` keeps `iLen` within 0..W. |
| ByteStream.UnstuffStuffed | src/JPEGENC.h:73-74 | Removing the zero after each 0xFF gives back exactly the data bytes, so stuffing is invertible. |
| ByteStream.StuffedFFThenZero | src/JPEGENC.h:73-74 | Every 0xFF in the stuffed output is immediately followed by 0x00. |
| ByteStream.StuffedLength | src/JPEGENC.h:90-91 | The stuffed output is longer than the data by exactly the number of 0xFF data bytes, so no other byte is inserted. |
| ByteStream.StuffedWithoutFF | src/JPEGENC.h:69-70 | Data without a 0xFF byte is written unchanged. |
| ByteStream.StuffedAppend | src/JPEGENC.h:72-74 | Stuffing byte by byte is stuffing the whole: Stuffed(d + e) == Stuffed(d) + Stuffed(e). |
| ByteStream.RegisterByteIsFF | src/JPEGENC.h:74 | A byte of the register is 0xFF if and only if all eight of its bits are set. |
| ByteStream.TopBytesBits | src/JPEGENC.h:73 | The first m bytes taken from the top of a register carry its first 8m bits, in order. |
| ByteStream.BytesBitsInjective | src/JPEGENC.h:73 | Equal bit strings of equal length come from equal byte strings. |
| Register.Shl | src/JPEGENC.h:75 | `x << k`: the register keeps its width; bits move towards the top and zeros enter at the bottom (bit by bit: ShlBits; value: ShlValue). |
| Register.Shr | src/JPEGENC.h:67 | Logical `x >> k`: the register keeps its width; bits move towards the bottom and zeros enter at the top (bit by bit: ShrBits; value: ShrValue). |
| Register.Or | src/JPEGENC.h:75 | Bitwise OR of two registers of one width: each result bit is set when either input bit is. |
| Register.And | src/JPEGENC.h:68 | Bitwise AND of two registers of one width: each result bit is set when both input bits are. |
| Register.Zeros | src/JPEGENC.h:71 | `ulAcc = 0`: the register of the given width with every bit clear. |
| Register.ShlValue | src/JPEGENC.h:75 | `x << k` on a W-bit register has the value (x * 2^k) mod 2^W. |
| Register.ShrValue | src/JPEGENC.h:67 | `x >> k` has the value x / 2^k, rounded down. |
| Register.OrDisjointValue | src/JPEGENC.h:75 | ORing two registers that share no set bit adds their values. |
| Register.FitsValue | src/JPEGENC.h:65 | A code whose bits above the low n are zero is exactly a value below 2^n. |
| Register.ToNatFromNat | src/JPEGENC.h:63 | Storing a value in a W-bit register keeps it modulo 2^W. |
| Register.FromNatToNat | src/JPEGENC.h:63 | A register is determined by its unsigned value. |
| Register.AllOnesValue | src/JPEGENC.h:74 | A register has the all-ones value (0xff for a byte) if and only if every bit is set. |
| ByteOrder.IntelShort | src/JPEGENC.h:215 | `INTELSHORT(p)`: the byte at p plus 256 times the next byte, a value below 2^16. |
| ByteOrder.IntelLong | src/JPEGENC.h:216 | `INTELLONG(p)`: the four bytes at p read least significant first, a value below 2^32. |
| ByteOrder.MotoShort | src/JPEGENC.h:217 | `MOTOSHORT(p)`: 256 times the byte at p plus the next byte, a value below 2^16. |
| ByteOrder.MotoLong | src/JPEGENC.h:218 | `MOTOLONG(p)`: the four bytes at p read most significant first, a value below 2^32. |
| ByteOrder.Moto16Bytes | src/JPEGENC.h:96 | The two bytes WRITEMOTO16 stores, `(unsigned char)(l >> 8)` then `(unsigned char)l`. |
| ByteOrder.Moto32Bytes | src/JPEGENC.h:95 | The four bytes WRITEMOTO32 stores, `(unsigned char)(l >> 24)` down to `(unsigned char)l`. |
| ByteOrder.WriteMoto16 | src/JPEGENC.h:96 | Writes the two bytes of the (uint32_t) value's low 16 bits at p[o], most significant first; MOTOSHORT reads back val mod 2^16. No other byte changes. |
| ByteOrder.WriteMoto32 | src/JPEGENC.h:95 | Writes the four bytes of (uint32_t)val at p[o], most significant first; MOTOLONG reads back val mod 2^32. No other byte changes. |
| ByteOrder.AsUint32 | src/JPEGENC.h:95 | `uint32_t l = val` is below 2^32. |
| ByteOrder.MotoShortOf16 | src/JPEGENC.h:96 | MOTOSHORT of what WRITEMOTO16 stores is the value mod 2^16. |
| ByteOrder.MotoLongOf32 | src/JPEGENC.h:95 | MOTOLONG of what WRITEMOTO32 stores is the value mod 2^32. |
| ByteOrder.ByteSplit | src/JPEGENC.h:95 | The four shifted bytes of a 32-bit value recombine into it. |
| ByteOrder.Moto16OfMotoShort | src/JPEGENC.h:217 | Writing back the value MOTOSHORT reads reproduces the two bytes, giving the other round trip. |
| ByteOrder.Moto32OfMotoLong | src/JPEGENC.h:218 | Writing back the value MOTOLONG reads reproduces the four bytes, giving the other round trip. |
| ByteOrder.IntelIsReversedMoto | src/JPEGENC.h:215-218 | INTELSHORT and INTELLONG are the big-endian readers applied to the bytes reversed, which is to say little-endian. |
| Codes.ErrorValue | src/JPEGENC.h:99-107 | The error codes take the values 0..6, and only JPEGE_SUCCESS is 0. |
| Codes.ErrorFromValue | src/JPEGENC.h:99-107 | A value names an error code exactly when it is in 0..6, and then the one with that value. |
| Codes.ErrorRoundTrip | src/JPEGENC.h:99-107 | Value and code are inverse in both directions. |
| Codes.SubsampleValue | src/JPEGENC.h:109-112 | 4:4:4 and 4:2:0 take the values 0 and 1. |
| Codes.SubsampleFromValue | src/JPEGENC.h:109-112 | A value names a subsampling mode exactly when it is 0 or 1. |
| Codes.SubsampleRoundTrip | src/JPEGENC.h:109-112 | Value and mode are inverse in both directions. |
| Codes.PixelValue | src/JPEGENC.h:115-122 | Every pixel type has a value below JPEGE_PIXEL_COUNT (5). |
| Codes.PixelFromValue | src/JPEGENC.h:115-122 | A value names a pixel type exactly when it is below JPEGE_PIXEL_COUNT. |
| Codes.PixelRoundTrip | src/JPEGENC.h:115-122 | Value and pixel type are inverse in both directions. |
| Codes.QualityValue | src/JPEGENC.h:124-129 | The four quality levels take the values 0..3. |
| Codes.QualityFromValue | src/JPEGENC.h:124-129 | A value names a quality level exactly when it is in 0..3. |
| Codes.QualityRoundTrip | src/JPEGENC.h:124-129 | Value and quality level are inverse in both directions. |
| Encoder.Zeroed | src/JPEGENC.cpp:35 | `memset(&_jpeg, 0, sizeof(JPEGE_IMAGE))`: no output buffer, no callbacks, no file handle, no high-water mark, size, data size and error all zero (JPEGE_SUCCESS). |
| Encoder.JpegEncoder.OpenWithCallbacks | src/JPEGENC.cpp:30-49 | A missing filename or callback returns JPEGE_INVALID_PARAMETER, with the record and the trace untouched. Otherwise the record is zeroed, the five callbacks are stored, the open callback is called with the filename, and the high-water mark is put at ucFileBuf[1536]. JPEGE_INVALID_FILE is stored and returned exactly when no handle comes back, and JPEGE_SUCCESS otherwise. |
| Encoder.JpegEncoder.OpenMemory | src/JPEGENC.cpp:51-60 | A null buffer or a size below 1024 returns JPEGE_INVALID_PARAMETER with the record untouched. Otherwise the record is zeroed: no error and no callbacks. The buffer and its size are recorded, with the high-water mark at offset size - 512, which lies inside the buffer and at least 512 bytes from its start. The call returns JPEGE_SUCCESS. |
| Encoder.JpegEncoder.GetLastError | src/JPEGENC.cpp:65-68 | Returns the stored iError and changes nothing. |
| Encoder.JpegEncoder.Close | src/JPEGENC.cpp:72-78 | Runs the engine's end step, and then the close callback on the file handle only if one is stored. Returns the iDataSize the end step leaves. |
| Encoder.JpegEncoder.EncodeBegin | src/JPEGENC.cpp:80-83 | Forwards all its arguments to the engine. The call changes only iError and iDataSize, as the engine sets them, and returns its result. |
| Encoder.JpegEncoder.AddMcu | src/JPEGENC.cpp:85-88 | Forwards to the engine's MCU step. The call changes only iError and iDataSize and returns the result. |
| Encoder.JpegEncoder.AddFrame | src/JPEGENC.cpp:90-93 | Forwards to the engine's frame step. The call changes only iError and iDataSize and returns the result. |
| Encoder.JpegEncoder.RunEngine | src/JPEGENC.cpp:74 | One call into the engine (also :82, :87, :92): it is appended to the trace, only iError and iDataSize change, to what the engine leaves, and its result is returned. |
| Encoder.RejectedMemoryOpen | MacOS/JPEGENC_Test/JPEGENC_Test/main.cpp:275-276 | On any handle, a rejected memory open returns JPEGE_INVALID_PARAMETER. Afterwards, getLastError still reports what the record held before. |
| Encoder.MemorySession | src/JPEGENC.cpp:72-78 | After a successful memory open, close makes no callback call, whatever the record held before. Its only foreign call is the engine's end step, and it returns the size that step leaves. |
| Encoder.FailedFileOpen | src/JPEGENC.cpp:41-46 | When the open callback yields no handle, both open and getLastError report JPEGE_INVALID_FILE. |
| Encoder.FileSession | src/JPEGENC.cpp:36-76 | In a file session the foreign calls are exactly these, in order: the open callback with the filename, the engine's end step, then the close callback on the handle it returned. |
| Encoder.RejectedFileOpen | MacOS/JPEGENC_Test/JPEGENC_Test/main.cpp:304-317 | A file open missing its filename or any callback returns JPEGE_INVALID_PARAMETER and calls nothing. The error read back is the previous one. |

## Left out

- The encoding engine (`jpegenc.inl`: DCT, quantisation, Huffman tables, headers, MCU walking, buffer flushing, `JPEGEncodeEnd`) is not part of this model. `EncodeBegin`, `AddMcu`, `AddFrame` and the end step of `Close` take the engine's result and its new `iError`/`iDataSize` as a parameter.
- The fields of `JPEGE_IMAGE` that only the engine uses (geometry, MCU position, DC predictors, tables, sample buffers, the embedded `PIL_CODE`, the contents of `ucFileBuf`, the file position) are not fields of `Image`.
- The callbacks are opaque identities, and so is the handle `fHandle`. The file I/O they perform is not modelled: the open callback's result is the `handle` parameter, the close callback is only recorded in the trace, and the read, write and seek callbacks, which only the engine calls, are not modelled.
- `pPixels` and `JPEGENCODE *pEncode` are read or filled by the engine and are not modelled. Only `iPitch` and the scalar arguments are recorded.
- A pointer (`pOutput`, `pHighWater`) is modelled as an array or an offset into its buffer. The model does not tie `iBufferSize` to the array's length, and neither does the source.
- Platform selection (`#if INTPTR_MAX == INT64_MAX`) is replaced by the `width` field of `PilCode`, which is 32 or 64. The 64-bit build's `STORECODE` is `StoreCode64`; the 32-bit build's is `StoreCodeBytewise`.
- The unaligned 8-byte store of `__builtin_bswap64(ul2)` is modelled as eight byte writes, most significant first (`PutWord`). This assumes a little-endian host; on a big-endian 64-bit host the C stores the word byte-reversed, which the model does not capture.
- C shifts by the full register width are not modelled as C performs them. `Shl`/`Shr` by the width give zero. The cases are `ulCode << 64` when `iLen` ends at 0 and `ulCode >> 64` when `iLen == iNewLen == 64`. C leaves these undefined. With a zero-length code, the model's result is the intended one.
- The signed `int` overflow of `MOTOLONG`/`INTELLONG` (`<< 24` on an `int`) is not modelled: the readers compute over unbounded non-negative values.
- EntropyOutput.PilCode.StoreCode64: requires room for 16 more output bytes at the cursor (`StoreCodeBytewise`: W/4 bytes). The macro writes without checking, relying on the engine's high-water flushing, which is not part of this model.
- EntropyOutput.PilCode.StoreCode64: requires the code to fit in `iNewLen` bits, and requires `iLen + iNewLen <= W`, or `iLen mod 8 + iNewLen <= W`, or (64-bit only) that the completed word has no 0xFF byte so the fast path is taken. The macro assumes these without checking: when the byte drain runs and `iLen mod 8 + iNewLen > W`, its final shift `ulCode << (W - iLen)` has a negative amount and is undefined. The fast path stores codes of any length up to 64 bits correctly, and the model covers it. `StoreCodeBytewise` requires the capacity condition itself. `CodeLengthBound` shows that every code of at most W-7 bits meets it.
- The test programs (MacOS/JPEGENC_Test, linux/main.cpp), including their file callbacks, bitmap reading and the expected output sizes, are not modelled: the sizes depend on the engine.
