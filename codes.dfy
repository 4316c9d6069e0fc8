/**
  The enumerations of src/JPEGENC.h: the error codes getLastError and the
  API methods return, and the pixel types, subsampling modes and quality
  levels encodeBegin takes. Each is a datatype with its C value (`...Value`)
  and the partial inverse that reads a C value back (`...FromValue`).
 */
module Codes {

  datatype Option<T> = None | Some(value: T)

  datatype ErrorCode =
    | Success             // JPEGE_SUCCESS = 0
    | InvalidParameter    // JPEGE_INVALID_PARAMETER
    | EncodeError         // JPEGE_ENCODE_ERROR
    | MemError            // JPEGE_MEM_ERROR
    | NoBuffer            // JPEGE_NO_BUFFER
    | UnsupportedFeature  // JPEGE_UNSUPPORTED_FEATURE
    | InvalidFile         // JPEGE_INVALID_FILE

  function ErrorValue(e: ErrorCode): (c: int)
    ensures 0 <= c < 7
    ensures c == 0 <==> e == Success
  {
    match e
    case Success => 0
    case InvalidParameter => 1
    case EncodeError => 2
    case MemError => 3
    case NoBuffer => 4
    case UnsupportedFeature => 5
    case InvalidFile => 6
  }

  function ErrorFromValue(c: int): (r: Option<ErrorCode>)
    ensures r.Some? <==> 0 <= c < 7
    ensures r.Some? ==> ErrorValue(r.value) == c
  {
    if c == 0 then Some(Success)
    else if c == 1 then Some(InvalidParameter)
    else if c == 2 then Some(EncodeError)
    else if c == 3 then Some(MemError)
    else if c == 4 then Some(NoBuffer)
    else if c == 5 then Some(UnsupportedFeature)
    else if c == 6 then Some(InvalidFile)
    else None
  }

  datatype Subsample =
    | Subsample444  // JPEGE_SUBSAMPLE_444 = 0
    | Subsample420  // JPEGE_SUBSAMPLE_420

  function SubsampleValue(s: Subsample): (c: int)
    ensures 0 <= c < 2
  {
    match s
    case Subsample444 => 0
    case Subsample420 => 1
  }

  function SubsampleFromValue(c: int): (r: Option<Subsample>)
    ensures r.Some? <==> 0 <= c < 2
    ensures r.Some? ==> SubsampleValue(r.value) == c
  {
    if c == 0 then Some(Subsample444)
    else if c == 1 then Some(Subsample420)
    else None
  }

  datatype PixelType =
    | Grayscale  // JPEGE_PIXEL_GRAYSCALE = 0
    | Rgb565     // JPEGE_PIXEL_RGB565
    | Rgb888     // JPEGE_PIXEL_RGB888
    | Argb8888   // JPEGE_PIXEL_ARGB8888
    | Yuv422     // JPEGE_PIXEL_YUV422

  /** JPEGE_PIXEL_COUNT: the number of pixel types, one past the last. */
  const PixelCount: int := 5

  function PixelValue(t: PixelType): (c: int)
    ensures 0 <= c < PixelCount
  {
    match t
    case Grayscale => 0
    case Rgb565 => 1
    case Rgb888 => 2
    case Argb8888 => 3
    case Yuv422 => 4
  }

  function PixelFromValue(c: int): (r: Option<PixelType>)
    ensures r.Some? <==> 0 <= c < PixelCount
    ensures r.Some? ==> PixelValue(r.value) == c
  {
    if c == 0 then Some(Grayscale)
    else if c == 1 then Some(Rgb565)
    else if c == 2 then Some(Rgb888)
    else if c == 3 then Some(Argb8888)
    else if c == 4 then Some(Yuv422)
    else None
  }

  datatype Quality =
    | Best    // JPEGE_Q_BEST = 0
    | High    // JPEGE_Q_HIGH
    | Medium  // JPEGE_Q_MED
    | Low     // JPEGE_Q_LOW

  function QualityValue(q: Quality): (c: int)
    ensures 0 <= c < 4
  {
    match q
    case Best => 0
    case High => 1
    case Medium => 2
    case Low => 3
  }

  function QualityFromValue(c: int): (r: Option<Quality>)
    ensures r.Some? <==> 0 <= c < 4
    ensures r.Some? ==> QualityValue(r.value) == c
  {
    if c == 0 then Some(Best)
    else if c == 1 then Some(High)
    else if c == 2 then Some(Medium)
    else if c == 3 then Some(Low)
    else None
  }

  // -----------------------------------------------------------------------
  // Round trips: every constant has one value and every value in range one constant

  lemma ErrorRoundTrip(e: ErrorCode, c: int)
    ensures ErrorFromValue(ErrorValue(e)) == Some(e)
    ensures ErrorFromValue(c) == Some(e) <==> ErrorValue(e) == c
  {
  }

  lemma SubsampleRoundTrip(s: Subsample, c: int)
    ensures SubsampleFromValue(SubsampleValue(s)) == Some(s)
    ensures SubsampleFromValue(c) == Some(s) <==> SubsampleValue(s) == c
  {
  }

  lemma PixelRoundTrip(t: PixelType, c: int)
    ensures PixelFromValue(PixelValue(t)) == Some(t)
    ensures PixelFromValue(c) == Some(t) <==> PixelValue(t) == c
  {
  }

  lemma QualityRoundTrip(q: Quality, c: int)
    ensures QualityFromValue(QualityValue(q)) == Some(q)
    ensures QualityFromValue(c) == Some(q) <==> QualityValue(q) == c
  {
  }
}
