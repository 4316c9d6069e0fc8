/**
  The JPEGENC class of src/JPEGENC.cpp: an encoder handle that owns one
  JPEGE_IMAGE record. `open` chooses the destination (a caller's memory
  buffer, or a file reached through five caller-supplied callbacks), after
  checking its arguments and zeroing the record; `getLastError` and
  `close` read the record back; `encodeBegin`, `addMCU` and `addFrame`
  hand the record to the encoding engine.

  The engine (jpegenc.inl) is not part of this model. Its effect on the
  record is a parameter of each call into it (`Outcome`: the value it
  returns and the iError and iDataSize it leaves behind). Every foreign
  call the handle itself makes, into the engine or into the open or close
  callback, is appended to `calls`; the read, write and seek callbacks are
  called only inside the engine and are not traced.
 */
module Encoder {
  import opened Codes
  import opened ByteStream

  /** JPEGE_FILE_BUF_SIZE: the size of the record's own staging buffer ucFileBuf. */
  const FileBufSize: int := 2048
  /** The high-water mark sits this many bytes before the end of the destination buffer. */
  const HighWaterMargin: int := 512
  /** The smallest output buffer the memory `open` accepts. */
  const MinBufferSize: int := 1024

  /** A caller-supplied function pointer; only its identity matters here. */
  datatype Callback = Callback(id: nat)

  /** The handle the open callback returns (JPEGE_FILE.fHandle); opaque to the encoder. */
  datatype Handle = Handle(id: nat)

  /** Where pHighWater points: nowhere, into the caller's output buffer, or into ucFileBuf. */
  datatype Pointer = Null | IntoOutput(offset: int) | IntoFileBuf(offset: int)

  /**
    The fields of JPEGE_IMAGE that `open`, `close` and `getLastError`
    touch. A missing pointer or callback is NULL.
   */
  datatype Image = Image(
    output: Option<array<byte>>,   // pOutput
    bufferSize: int,               // iBufferSize
    highWater: Pointer,            // pHighWater
    dataSize: int,                 // iDataSize
    error: int,                    // iError
    read: Option<Callback>,        // pfnRead
    write: Option<Callback>,       // pfnWrite
    seek: Option<Callback>,        // pfnSeek
    open: Option<Callback>,        // pfnOpen
    close: Option<Callback>,       // pfnClose
    file: Option<Handle>           // JPEGFile.fHandle
  )

  /** The record after `memset(&_jpeg, 0, sizeof(JPEGE_IMAGE))`. */
  function Zeroed(): (z: Image)
    ensures NoCallbacks(z) && z.output.None? && z.file.None? && z.highWater.Null?
    ensures z.bufferSize == 0 && z.dataSize == 0 && z.error == ErrorValue(Success)
  {
    Image(None, 0, Null, 0, 0, None, None, None, None, None, None)
  }

  /** The engine entry points the handle forwards to, with the arguments they receive. */
  datatype EngineCall =
    | BeginCall(width: int, height: int, pixelType: byte, subsample: byte, quality: byte)
    | McuCall(pitch: int)
    | FrameCall(pitch: int)
    | EndCall

  /** What one engine call does, as far as the handle can see: its result and the fields it leaves. */
  datatype Outcome = Outcome(result: int, error: int, dataSize: int)

  /** A foreign call made by the handle. */
  datatype Call =
    | OpenFile(via: Callback, name: string)
    | CloseFile(via: Callback, file: Option<Handle>)
    | Engine(op: EngineCall)

  /** No callback is registered: the memory destination. */
  predicate NoCallbacks(img: Image)
  {
    img.read.None? && img.write.None? && img.seek.None? && img.open.None? && img.close.None?
  }

  /** The state a successful memory `open` sets up for a buffer of `size` bytes. */
  predicate MemoryDestination(img: Image, buf: array<byte>, size: int)
  {
    && img.output == Some(buf) && img.bufferSize == size && size >= MinBufferSize
    && img.highWater == IntoOutput(size - HighWaterMargin)
    && NoCallbacks(img) && img.file.None?
    && img.error == ErrorValue(Success) && img.dataSize == 0
  }

  /** The state a file `open` sets up: the callbacks registered, staging through ucFileBuf. */
  predicate FileDestination(img: Image)
  {
    && img.output.None? && img.bufferSize == 0
    && img.highWater == IntoFileBuf(FileBufSize - HighWaterMargin)
    && img.read.Some? && img.write.Some? && img.seek.Some? && img.open.Some? && img.close.Some?
    && img.dataSize == 0
    && img.error == (if img.file.None? then ErrorValue(InvalidFile) else ErrorValue(Success))
  }

  /** The high-water mark lies inside its buffer, at least HighWaterMargin bytes from its start. */
  predicate HighWaterInside(img: Image)
  {
    match img.highWater
    case Null => false
    case IntoOutput(o) => HighWaterMargin <= o < img.bufferSize
    case IntoFileBuf(o) => HighWaterMargin <= o < FileBufSize
  }

  class JpegEncoder {
    var jpeg: Image
    var calls: seq<Call>

    /** A handle whose record holds whatever its storage held. */
    constructor (initial: Image)
      ensures jpeg == initial && calls == []
    {
      jpeg := initial;
      calls := [];
    }

    /**
      The file-callback `open`: rejects a missing filename or callback
      without touching the record; otherwise zeroes the record, registers
      the callbacks, asks the open callback for a handle (`handle` is what
      it returns) and sets the high-water mark inside ucFileBuf. A missing
      handle is recorded and returned as JPEGE_INVALID_FILE.
     */
    method OpenWithCallbacks(szFilename: Option<string>, pfnOpen: Option<Callback>, pfnClose: Option<Callback>,
                             pfnRead: Option<Callback>, pfnWrite: Option<Callback>, pfnSeek: Option<Callback>,
                             handle: Option<Handle>) returns (rc: int)
      modifies this
      ensures
        || szFilename.None? || pfnOpen.None? || pfnClose.None?
        || pfnRead.None? || pfnWrite.None? || pfnSeek.None?
        ==> rc == ErrorValue(InvalidParameter) && jpeg == old(jpeg) && calls == old(calls)
      ensures
        && szFilename.Some? && pfnOpen.Some? && pfnClose.Some?
        && pfnRead.Some? && pfnWrite.Some? && pfnSeek.Some?
        ==> && jpeg == Zeroed().(read := pfnRead, write := pfnWrite, seek := pfnSeek, open := pfnOpen,
                                 close := pfnClose, file := handle,
                                 highWater := IntoFileBuf(FileBufSize - HighWaterMargin),
                                 error := if handle.None? then ErrorValue(InvalidFile) else ErrorValue(Success))
            && calls == old(calls) + [OpenFile(pfnOpen.value, szFilename.value)]
            && FileDestination(jpeg) && HighWaterInside(jpeg)
            && rc == jpeg.error
            && (rc == ErrorValue(Success) <==> handle.Some?)
    {
      if szFilename.None? || pfnOpen.None? || pfnClose.None? || pfnRead.None? || pfnWrite.None? || pfnSeek.None? {
        return ErrorValue(InvalidParameter);
      }
      jpeg := Zeroed();
      jpeg := jpeg.(read := pfnRead, write := pfnWrite, seek := pfnSeek, open := pfnOpen, close := pfnClose);
      calls := calls + [OpenFile(pfnOpen.value, szFilename.value)];
      jpeg := jpeg.(file := handle);
      jpeg := jpeg.(highWater := IntoFileBuf(FileBufSize - HighWaterMargin));
      if jpeg.file.None? {
        jpeg := jpeg.(error := ErrorValue(InvalidFile));
        return ErrorValue(InvalidFile);
      }
      return ErrorValue(Success);
    }

    /**
      The memory `open`: rejects a missing buffer or one smaller than
      MinBufferSize without touching the record; otherwise zeroes the
      record and records the buffer, its size and the high-water mark
      HighWaterMargin bytes before its end.
     */
    method OpenMemory(pOutput: Option<array<byte>>, iBufferSize: int) returns (rc: int)
      modifies this
      ensures calls == old(calls)
      ensures pOutput.None? || iBufferSize < MinBufferSize ==>
        rc == ErrorValue(InvalidParameter) && jpeg == old(jpeg)
      ensures pOutput.Some? && iBufferSize >= MinBufferSize ==>
        && rc == ErrorValue(Success)
        && jpeg == Zeroed().(output := pOutput, bufferSize := iBufferSize,
                             highWater := IntoOutput(iBufferSize - HighWaterMargin))
        && MemoryDestination(jpeg, pOutput.value, iBufferSize) && HighWaterInside(jpeg)
    {
      if pOutput.None? || iBufferSize < MinBufferSize {
        return ErrorValue(InvalidParameter);
      }
      jpeg := Zeroed();
      jpeg := jpeg.(output := pOutput, bufferSize := iBufferSize);
      jpeg := jpeg.(highWater := IntoOutput(iBufferSize - HighWaterMargin));
      return ErrorValue(Success);
    }

    /** `getLastError`: the error code the record holds; nothing changes. */
    method GetLastError() returns (e: int)
      ensures e == jpeg.error
    {
      return jpeg.error;
    }

    /**
      `close`: runs the engine's end step (whose effect is `end`), then
      calls the close callback on the file if one is registered, and
      returns the output size the record then holds.
     */
    method Close(end: Outcome) returns (size: int)
      modifies this
      ensures jpeg == old(jpeg).(error := end.error, dataSize := end.dataSize)
      ensures calls == old(calls) + [Engine(EndCall)] +
        (if old(jpeg).close.Some? then [CloseFile(old(jpeg).close.value, old(jpeg).file)] else [])
      ensures size == end.dataSize
    {
      var _ := RunEngine(EndCall, end);
      if jpeg.close.Some? {
        calls := calls + [CloseFile(jpeg.close.value, jpeg.file)];
      }
      return jpeg.dataSize;
    }

    /** `encodeBegin`: forwarded to the engine. */
    method EncodeBegin(iWidth: int, iHeight: int, ucPixelType: byte, ucSubSample: byte, ucQFactor: byte, outcome: Outcome)
      returns (rc: int)
      modifies this
      ensures jpeg == old(jpeg).(error := outcome.error, dataSize := outcome.dataSize)
      ensures calls == old(calls) + [Engine(BeginCall(iWidth, iHeight, ucPixelType, ucSubSample, ucQFactor))]
      ensures rc == outcome.result
    {
      rc := RunEngine(BeginCall(iWidth, iHeight, ucPixelType, ucSubSample, ucQFactor), outcome);
    }

    /** `addMCU`: forwarded to the engine. */
    method AddMcu(iPitch: int, outcome: Outcome) returns (rc: int)
      modifies this
      ensures jpeg == old(jpeg).(error := outcome.error, dataSize := outcome.dataSize)
      ensures calls == old(calls) + [Engine(McuCall(iPitch))]
      ensures rc == outcome.result
    {
      rc := RunEngine(McuCall(iPitch), outcome);
    }

    /** `addFrame`: forwarded to the engine. */
    method AddFrame(iPitch: int, outcome: Outcome) returns (rc: int)
      modifies this
      ensures jpeg == old(jpeg).(error := outcome.error, dataSize := outcome.dataSize)
      ensures calls == old(calls) + [Engine(FrameCall(iPitch))]
      ensures rc == outcome.result
    {
      rc := RunEngine(FrameCall(iPitch), outcome);
    }

    /** A call into the engine: recorded, with the effect `outcome` gives it. */
    method RunEngine(op: EngineCall, outcome: Outcome) returns (rc: int)
      modifies this
      ensures jpeg == old(jpeg).(error := outcome.error, dataSize := outcome.dataSize)
      ensures calls == old(calls) + [Engine(op)]
      ensures rc == outcome.result
    {
      calls := calls + [Engine(op)];
      jpeg := jpeg.(error := outcome.error, dataSize := outcome.dataSize);
      rc := outcome.result;
    }
  }

  // -----------------------------------------------------------------------
  // Sessions: what a sequence of calls on a fresh handle leaves behind

  /**
    A memory `open` that is rejected leaves the record as it was, so the
    error code read back is whatever the record held before.
   */
  method RejectedMemoryOpen(initial: Image, pOutput: Option<array<byte>>, iBufferSize: int) returns (rc: int, last: int)
    requires pOutput.None? || iBufferSize < MinBufferSize
    ensures rc == ErrorValue(InvalidParameter) && last == initial.error
  {
    var enc := new JpegEncoder(initial);
    rc := enc.OpenMemory(pOutput, iBufferSize);
    last := enc.GetLastError();
  }

  /**
    After a successful memory `open`, whatever the record held before,
    `close` calls no close callback: the only foreign call is the
    engine's end step, and the size returned is the one it leaves.
   */
  method MemorySession(initial: Image, buf: array<byte>, iBufferSize: int, end: Outcome)
    returns (rc: int, size: int, trace: seq<Call>)
    requires iBufferSize >= MinBufferSize
    ensures rc == ErrorValue(Success) && size == end.dataSize
    ensures trace == [Engine(EndCall)]
  {
    var enc := new JpegEncoder(initial);
    rc := enc.OpenMemory(Some(buf), iBufferSize);
    size := enc.Close(end);
    trace := enc.calls;
  }

  /** When the open callback yields no handle, getLastError reports JPEGE_INVALID_FILE. */
  method FailedFileOpen(initial: Image, name: string, pfnOpen: Callback, pfnClose: Callback,
                        pfnRead: Callback, pfnWrite: Callback, pfnSeek: Callback)
    returns (rc: int, last: int)
    ensures rc == ErrorValue(InvalidFile) && last == ErrorValue(InvalidFile)
  {
    var enc := new JpegEncoder(initial);
    rc := enc.OpenWithCallbacks(Some(name), Some(pfnOpen), Some(pfnClose), Some(pfnRead), Some(pfnWrite), Some(pfnSeek), None);
    last := enc.GetLastError();
  }

  /**
    A file session: the open callback is called with the filename, and
    `close` calls the close callback on the handle it returned, after the
    engine's end step.
   */
  method FileSession(initial: Image, name: string, pfnOpen: Callback, pfnClose: Callback,
                     pfnRead: Callback, pfnWrite: Callback, pfnSeek: Callback, h: Handle, end: Outcome)
    returns (rc: int, size: int, trace: seq<Call>)
    ensures rc == ErrorValue(Success) && size == end.dataSize
    ensures trace == [OpenFile(pfnOpen, name), Engine(EndCall), CloseFile(pfnClose, Some(h))]
  {
    var enc := new JpegEncoder(initial);
    rc := enc.OpenWithCallbacks(Some(name), Some(pfnOpen), Some(pfnClose), Some(pfnRead), Some(pfnWrite), Some(pfnSeek), Some(h));
    size := enc.Close(end);
    trace := enc.calls;
  }

  /** A file `open` missing its filename or any callback is rejected and calls nothing. */
  method RejectedFileOpen(initial: Image, szFilename: Option<string>, pfnOpen: Option<Callback>, pfnClose: Option<Callback>,
                          pfnRead: Option<Callback>, pfnWrite: Option<Callback>, pfnSeek: Option<Callback>, handle: Option<Handle>)
    returns (rc: int, last: int, trace: seq<Call>)
    requires szFilename.None? || pfnOpen.None? || pfnClose.None? || pfnRead.None? || pfnWrite.None? || pfnSeek.None?
    ensures rc == ErrorValue(InvalidParameter) && last == initial.error && trace == []
  {
    var enc := new JpegEncoder(initial);
    rc := enc.OpenWithCallbacks(szFilename, pfnOpen, pfnClose, pfnRead, pfnWrite, pfnSeek, handle);
    last := enc.GetLastError();
    trace := enc.calls;
  }
}
